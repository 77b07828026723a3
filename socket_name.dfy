/**
 * The name of the local socket through which the leader process talks to
 * the external controller: "./exchange", the channel id printed without
 * fractional digits, then ".sock", assembled with `strcat` in a 20-byte
 * buffer.
 */
module SocketName {
  import opened CStrings

  /** Capacity of both the id buffer and the socket-name buffer. */
  const SOCKET_PATH_SIZE: nat := 20

  const Prefix: string := "./exchange"
  const Suffix: string := ".sock"

  lemma AffixesHaveNoNul()
    ensures NUL !in Prefix && NUL !in Suffix
    ensures |Prefix| == 10 && |Suffix| == 5
  {
  }

  /** The path derived from a channel id. */
  function SocketPath(id: nat): string {
    Prefix + Decimal(id) + Suffix
  }

  /** The path and its terminating NUL fit in the 20-byte buffer exactly for ids below 10000. */
  lemma FitsBuffer(id: nat)
    ensures |SocketPath(id)| < SOCKET_PATH_SIZE <==> id < 10000
  {
    DecimalLength(id, 4);
    assert Pow10(4) == 10000;
  }

  /** Distinct channel ids never share a socket path. */
  lemma SocketPathInjective(a: nat, b: nat)
    ensures SocketPath(a) == SocketPath(b) ==> a == b
  {
    if SocketPath(a) == SocketPath(b) {
      var sa, sb := Decimal(a), Decimal(b);
      assert |sa| == |sb|;
      assert sa == SocketPath(a)[|Prefix|..|Prefix| + |sa|];
      assert sb == SocketPath(b)[|Prefix|..|Prefix| + |sb|];
      DecimalInjective(a, b);
    }
  }

  /** The id can be read back from the path, between the fixed prefix and suffix. */
  lemma IdOfSocketPath(id: nat)
    ensures var p := SocketPath(id);
      |p| > |Prefix| + |Suffix| &&
      p[..|Prefix|] == Prefix && p[|p| - |Suffix|..] == Suffix &&
      ValueOf(p[|Prefix|..|p| - |Suffix|]) == id
  {
    var p := SocketPath(id);
    assert p[|Prefix|..|p| - |Suffix|] == Decimal(id);
    ValueOfDecimal(id);
  }

  /**
   * `snprintf(idString, 20, "%.0f", id)` read back as text: the id in
   * decimal, whole, for every id of at most 19 digits.
   */
  method FormatId(id: nat) returns (idText: string)
    requires id < Pow10(SOCKET_PATH_SIZE - 1)
    ensures idText == Decimal(id)
  {
    DecimalLength(id, SOCKET_PATH_SIZE - 1);
    DecimalHasNoNul(id);
    var idString := new char[SOCKET_PATH_SIZE];
    FormatDecimal(idString, id);
    idText := StringOf(idString);
  }

  /**
   * The constructor's name-building steps: format the id into its own
   * buffer, then append prefix, id and suffix to a zeroed name buffer.
   * The id must be below 10000, or the last `strcat` writes past the end.
   */
  method BuildSocketName(id: nat) returns (name: string)
    requires id < 10000
    ensures name == SocketPath(id)
    ensures |name| < SOCKET_PATH_SIZE
  {
    PowMonotone(4, SOCKET_PATH_SIZE - 1);
    assert Pow10(4) == 10000;
    var idText := FormatId(id);
    FitsBuffer(id);
    DecimalHasNoNul(id);
    AffixesHaveNoNul();

    var socketName := new char[SOCKET_PATH_SIZE](_ => NUL);
    CStrIs(socketName[..], []);
    StrCat(socketName, Prefix);
    assert CStr(socketName[..]) == Prefix;
    StrCat(socketName, idText);
    assert CStr(socketName[..]) == Prefix + idText;
    StrCat(socketName, Suffix);
    name := StringOf(socketName);
  }
}
