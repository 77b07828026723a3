/**
 * The pose wire decoder of `transformation()`: the payload is split on ';'
 * the way `std::getline` splits a stream, a counter numbers the tokens,
 * and tokens 1..6 are converted and stored into displacement x, y, z and
 * rotation x, y, z. Later tokens are counted and otherwise ignored.
 *
 * The text-to-number conversion (`stof`) is a parameter: `parse(tok)` is
 * `None` where `stof` would throw, which ends the decode.
 */
module PoseDecoder {
  import opened Wrappers

  const Delim: char := ';'

  /** Number of pose fields the payload carries. */
  const FieldCount: nat := 6

  datatype Vec3 = Vec3(x: real, y: real, z: real)

  datatype Pose = Pose(displacement: Vec3, rotation: Vec3)

  /** Field `k` of a pose in wire order: displacement x, y, z, then rotation x, y, z. */
  function Field(p: Pose, k: nat): real
    requires 1 <= k <= FieldCount
  {
    match k
    case 1 => p.displacement.x
    case 2 => p.displacement.y
    case 3 => p.displacement.z
    case 4 => p.rotation.x
    case 5 => p.rotation.y
    case 6 => p.rotation.z
  }

  /** Two poses that agree on all six fields are the same pose. */
  lemma PoseExt(p: Pose, q: Pose)
    requires forall k :: 1 <= k <= FieldCount ==> Field(p, k) == Field(q, k)
    ensures p == q
  {
    assert Field(p, 1) == Field(q, 1) && Field(p, 2) == Field(q, 2) && Field(p, 3) == Field(q, 3);
    assert Field(p, 4) == Field(q, 4) && Field(p, 5) == Field(q, 5) && Field(p, 6) == Field(q, 6);
  }

  /** One arm of the `switch`: store `v` into field `k`. */
  function SetField(p: Pose, k: nat, v: real): (q: Pose)
    requires 1 <= k <= FieldCount
    ensures Field(q, k) == v
    ensures forall j :: 1 <= j <= FieldCount && j != k ==> Field(q, j) == Field(p, j)
  {
    match k
    case 1 => p.(displacement := p.displacement.(x := v))
    case 2 => p.(displacement := p.displacement.(y := v))
    case 3 => p.(displacement := p.displacement.(z := v))
    case 4 => p.(rotation := p.rotation.(x := v))
    case 5 => p.(rotation := p.rotation.(y := v))
    case 6 => p.(rotation := p.rotation.(z := v))
  }

  // ---------------------------------------------------------------------
  // Splitting on the delimiter
  // ---------------------------------------------------------------------

  /** Index of the first `c` in `s`, or `|s|` when there is none. */
  function IndexOf(s: string, c: char): (k: nat)
    ensures k <= |s|
    ensures forall i :: 0 <= i < k ==> s[i] != c
    ensures k < |s| ==> s[k] == c
  {
    if s == [] then 0 else if s[0] == c then 0 else 1 + IndexOf(s[1..], c)
  }

  /** A string cut around one of its characters. */
  lemma CutAt(s: string, k: nat)
    requires k < |s|
    ensures s == s[..k] + [s[k]] + s[k + 1..]
  {
  }

  /** Slicing a concatenation inside or past its left part. */
  lemma SliceOfAppend<T>(a: seq<T>, b: seq<T>, k: nat)
    requires k <= |a|
    ensures (a + b)[..k] == a[..k] && (a + b)[k..] == a[k..] + b
  {
  }

  /** Concatenation is associative. */
  lemma AppendAssoc<T>(a: seq<T>, b: seq<T>, c: seq<T>)
    ensures (a + b) + c == a + (b + c)
  {
  }

  /** Dropping the last element of a concatenation with a non-empty right part. */
  lemma DropLastOfAppend<T>(a: seq<T>, b: seq<T>)
    requires b != []
    ensures (a + b)[..|a + b| - 1] == a + b[..|b| - 1]
  {
  }

  /**
   * The tokens successive `getline(ss, token, ';')` calls produce: the text
   * before each ';', and the text after the last ';' when there is any.
   * An empty payload has no token and a trailing ';' adds none.
   */
  function Split(s: string): (toks: seq<string>)
    ensures toks == [] <==> s == []
    decreases |s|
  {
    if s == [] then []
    else
      var k := IndexOf(s, Delim);
      if k == |s| then [s] else [s[..k]] + Split(s[k + 1..])
  }

  /** The tokens joined by the delimiter. */
  function Join(toks: seq<string>): string {
    if toks == [] then []
    else if |toks| == 1 then toks[0]
    else toks[0] + [Delim] + Join(toks[1..])
  }

  /** Number of occurrences of `c` in `s`. */
  function Occurrences(s: string, c: char): nat {
    if s == [] then 0 else (if s[0] == c then 1 else 0) + Occurrences(s[1..], c)
  }

  lemma {:induction false} OccurrencesAppend(a: string, b: string, c: char)
    ensures Occurrences(a + b, c) == Occurrences(a, c) + Occurrences(b, c)
  {
    if a != [] {
      assert (a + b)[0] == a[0];
      assert (a + b)[1..] == a[1..] + b;
      OccurrencesAppend(a[1..], b, c);
    } else {
      assert a + b == b;
    }
  }

  lemma {:induction false} OccurrencesAbsent(s: string, c: char)
    requires c !in s
    ensures Occurrences(s, c) == 0
  {
    if s != [] {
      OccurrencesAbsent(s[1..], c);
    }
  }

  /** The first index holding `c` is determined by the text before it. */
  lemma {:induction false} IndexOfIs(s: string, c: char, k: nat)
    requires k <= |s| && (k == |s| || s[k] == c)
    requires forall i :: 0 <= i < k ==> s[i] != c
    ensures IndexOf(s, c) == k
  {
    if s != [] && k > 0 {
      IndexOfIs(s[1..], c, k - 1);
    }
  }

  /** The first token of a non-empty payload ends at its first ';' (or at its end). */
  lemma SplitHead(s: string, k: nat)
    requires k <= |s| && (k == |s| || s[k] == Delim)
    requires forall i :: 0 <= i < k ==> s[i] != Delim
    requires s != []
    ensures Split(s) == if k == |s| then [s] else [s[..k]] + Split(s[k + 1..])
  {
    IndexOfIs(s, Delim, k);
  }

  /**
   * The token count (the final value of the loop counter): one per ';',
   * plus one for text after the last ';'.
   */
  lemma {:induction false} SplitCount(s: string)
    ensures |Split(s)| == Occurrences(s, Delim) + (if s != [] && s[|s| - 1] != Delim then 1 else 0)
    decreases |s|
  {
    if s != [] {
      var k := IndexOf(s, Delim);
      if k == |s| {
        OccurrencesAbsent(s, Delim);
      } else {
        CutAt(s, k);
        OccurrencesAppend(s[..k] + [Delim], s[k + 1..], Delim);
        OccurrencesAppend(s[..k], [Delim], Delim);
        OccurrencesAbsent(s[..k], Delim);
        SplitCount(s[k + 1..]);
        if s[k + 1..] != [] {
          assert s[k + 1..][|s[k + 1..]| - 1] == s[|s| - 1];
        }
      }
    }
  }

  /** The trailing ';' of a payload, if it ends in one. */
  function TrailingDelim(s: string): string {
    if s != [] && s[|s| - 1] == Delim then [Delim] else []
  }

  /** No token holds the delimiter. */
  lemma {:induction false} SplitTokensUndelimited(s: string)
    ensures forall i :: 0 <= i < |Split(s)| ==> Delim !in Split(s)[i]
    decreases |s|
  {
    if s != [] {
      var k := IndexOf(s, Delim);
      if k < |s| {
        SplitTokensUndelimited(s[k + 1..]);
      }
    }
  }

  lemma JoinCons(head: string, toks: seq<string>)
    requires toks != []
    ensures Join([head] + toks) == head + [Delim] + Join(toks)
  {
    assert ([head] + toks)[1..] == toks;
  }

  /** Unfolding Split once at the first ';'. */
  lemma SplitFirst(s: string, k: nat)
    requires s != [] && k == IndexOf(s, Delim) && k < |s|
    ensures Split(s) == [s[..k]] + Split(s[k + 1..])
  {
  }

  /** JoinSplit for a payload whose only ';' is its last character. */
  lemma JoinSplitLast(s: string, k: nat)
    requires s != [] && k == IndexOf(s, Delim) && k == |s| - 1
    ensures Join(Split(s)) + TrailingDelim(s) == s
  {
    SplitFirst(s, k);
    assert s[k + 1..] == [];
    assert Join(Split(s)) == s[..k];
    CutAt(s, k);
  }

  /** JoinSplit for a payload with text after its first ';', given JoinSplit for that text. */
  lemma JoinSplitMore(s: string, k: nat)
    requires s != [] && k == IndexOf(s, Delim) && k < |s| - 1
    requires Join(Split(s[k + 1..])) + TrailingDelim(s[k + 1..]) == s[k + 1..]
    ensures Join(Split(s)) + TrailingDelim(s) == s
  {
    TrailingDelimOfSuffix(s, k + 1);
    SplitCount(s[k + 1..]);
    SplitFirst(s, k);
    CutAt(s, k);
    JoinSplitCons(s, s[..k], s[k + 1..]);
  }

  /** A non-empty suffix ends the way the whole text does. */
  lemma TrailingDelimOfSuffix(s: string, j: nat)
    requires j < |s|
    ensures TrailingDelim(s[j..]) == TrailingDelim(s)
  {
    assert s[j..][|s| - j - 1] == s[|s| - 1];
  }

  /** The algebra of JoinSplitMore, over names rather than slices. */
  lemma JoinSplitCons(s: string, head: string, rest: string)
    requires s == head + [Delim] + rest
    requires Split(s) == [head] + Split(rest) && Split(rest) != []
    requires TrailingDelim(s) == TrailingDelim(rest)
    requires Join(Split(rest)) + TrailingDelim(rest) == rest
    ensures Join(Split(s)) + TrailingDelim(s) == s
  {
    var j, t := Join(Split(rest)), TrailingDelim(rest);
    JoinCons(head, Split(rest));
    AppendAssoc(head + [Delim], j, t);
  }

  /** Joining the tokens gives back the payload, less a trailing ';'. */
  lemma {:induction false} JoinSplit(s: string)
    ensures Join(Split(s)) + TrailingDelim(s) == s
    decreases |s|
  {
    if s != [] {
      var k := IndexOf(s, Delim);
      if k == |s| {
        assert s[..k] == s;
        assert s[|s| - 1] != Delim;
      } else {
        if k == |s| - 1 {
          JoinSplitLast(s, k);
        } else {
          JoinSplit(s[k + 1..]);
          JoinSplitMore(s, k);
        }
      }
    }
  }

  /** A ';'-free token followed by ';' is the first token, and splitting resumes after it. */
  lemma SplitAfterToken(t: string, rest: string)
    requires Delim !in t
    ensures Split(t + [Delim] + rest) == [t] + Split(rest)
  {
    var s := t + [Delim] + rest;
    assert forall i :: 0 <= i < |t| ==> s[i] == t[i];
    SplitHead(s, |t|);
    assert s[..|t|] == t;
    assert s[|t| + 1..] == rest;
  }

  /** Tokens without ';', joined and ';'-terminated, split back into the same tokens. */
  lemma {:induction false} SplitJoin(toks: seq<string>)
    requires toks != []
    requires forall i :: 0 <= i < |toks| ==> Delim !in toks[i]
    ensures Split(Join(toks) + [Delim]) == toks
    decreases |toks|
  {
    var t := toks[0];
    assert Delim !in t;
    if |toks| == 1 {
      assert Join(toks) + [Delim] == t + [Delim] + [];
      SplitAfterToken(t, []);
    } else {
      var tail := toks[1..];
      assert toks == [t] + tail;
      assert Join(toks) + [Delim] == t + [Delim] + (Join(tail) + [Delim]) by {
        JoinCons(t, tail);
        AppendAssoc(t + [Delim], Join(tail), [Delim]);
      }
      SplitAfterToken(t, Join(tail) + [Delim]);
      SplitJoin(tail);
    }
  }

  /** The first ';' of `a` is also the first ';' of `a + b`. */
  lemma IndexOfAppend(a: string, b: string, k: nat)
    requires k == IndexOf(a, Delim) && k < |a|
    ensures IndexOf(a + b, Delim) == k
  {
    var ab := a + b;
    assert forall i :: 0 <= i < k ==> ab[i] == a[i];
    IndexOfIs(ab, Delim, k);
  }

  /** The inductive step of SplitAppend. */
  lemma SplitAppendStep(a: string, b: string, k: nat)
    requires a != [] && k == IndexOf(a, Delim) && k < |a|
    requires Split(a[k + 1..] + b) == Split(a[k + 1..]) + Split(b)
    ensures Split(a + b) == Split(a) + Split(b)
  {
    var head, rest := a[..k], a[k + 1..];
    SplitFirst(a, k);
    IndexOfAppend(a, b, k);
    SplitFirst(a + b, k);
    SliceOfAppend(a, b, k);
    SliceOfAppend(a, b, k + 1);
    SplitAppendCons(a + b, a, b, head, rest);
  }

  /** The algebra of SplitAppendStep, over names rather than slices. */
  lemma SplitAppendCons(ab: string, a: string, b: string, head: string, rest: string)
    requires Split(ab) == [head] + Split(rest + b)
    requires Split(a) == [head] + Split(rest)
    requires Split(rest + b) == Split(rest) + Split(b)
    ensures Split(ab) == Split(a) + Split(b)
  {
    AppendAssoc([head], Split(rest), Split(b));
  }

  lemma SplitAppendEmpty(a: string, b: string)
    requires a == []
    ensures Split(a + b) == Split(a) + Split(b)
  {
    assert a + b == b;
  }

  /** In a ';'-terminated text the first ';' is inside it, and what follows is again ';'-terminated or empty. */
  lemma TerminatedRest(a: string, k: nat)
    requires a != [] && a[|a| - 1] == Delim && k == IndexOf(a, Delim)
    ensures k < |a|
    ensures var rest := a[k + 1..]; rest == [] || rest[|rest| - 1] == Delim
  {
    assert a[|a| - 1] == Delim;
    var rest := a[k + 1..];
    if rest != [] {
      assert rest[|rest| - 1] == a[|a| - 1];
    }
  }

  /** Splitting a ';'-terminated prefix and the rest separately gives the same tokens. */
  lemma {:induction false} SplitAppend(a: string, b: string)
    requires a == [] || a[|a| - 1] == Delim
    ensures Split(a + b) == Split(a) + Split(b)
    decreases |a|
  {
    if a == [] {
      SplitAppendEmpty(a, b);
    } else {
      var k := IndexOf(a, Delim);
      TerminatedRest(a, k);
      SplitAppend(a[k + 1..], b);
      SplitAppendStep(a, b, k);
    }
  }

  /** A ';' after a last token that already ends the payload adds no token. */
  lemma TrailingDelimiter(s: string)
    requires s != [] && s[|s| - 1] != Delim
    ensures Split(s + [Delim]) == Split(s)
  {
    var toks := Split(s);
    JoinSplit(s);
    assert TrailingDelim(s) == [];
    assert Join(toks) == s;
    assert toks != [] by { SplitCount(s); }
    SplitTokensUndelimited(s);
    SplitJoin(toks);
  }

  // ---------------------------------------------------------------------
  // Assigning the tokens to the pose
  // ---------------------------------------------------------------------

  /**
   * The pose after the loop has consumed `toks`, starting from `init`:
   * token number n (1-based) is converted and stored into field n when
   * n <= 6 and skipped otherwise; a failed conversion ends the decode.
   */
  function DecodeTokens(toks: seq<string>, init: Pose, parse: string -> Option<real>): (r: Option<Pose>)
    ensures r.Some? ==> forall k :: |toks| < k <= FieldCount ==> Field(r.value, k) == Field(init, k)
    decreases |toks|
  {
    if toks == [] then Some(init)
    else
      var n := |toks|;
      match DecodeTokens(toks[..n - 1], init, parse)
      case None => None
      case Some(p) =>
        if n <= FieldCount then
          match parse(toks[n - 1])
          case None => None
          case Some(v) => Some(SetField(p, n, v))
        else Some(p)
  }

  /** The decode of a whole payload. */
  function Decode(payload: string, init: Pose, parse: string -> Option<real>): Option<Pose> {
    DecodeTokens(Split(payload), init, parse)
  }

  /** The value field `k` ends up with: its token's value if there is a k-th token, else the initial value. */
  function ExpectedField(toks: seq<string>, init: Pose, parse: string -> Option<real>, k: nat): real
    requires 1 <= k <= FieldCount
  {
    if k <= |toks| && parse(toks[k - 1]).Some? then parse(toks[k - 1]).value else Field(init, k)
  }

  /** Whether one of the first six tokens fails to convert. */
  predicate SomeFieldMalformed(toks: seq<string>, parse: string -> Option<real>) {
    exists j :: 0 <= j < |toks| && j < FieldCount && parse(toks[j]).None?
  }

  /** Reference definition of the decode, stated field by field without the loop. */
  function ExpectedPose(toks: seq<string>, init: Pose, parse: string -> Option<real>): Option<Pose> {
    if SomeFieldMalformed(toks, parse) then None
    else
      Some(Pose(Vec3(ExpectedField(toks, init, parse, 1),
                     ExpectedField(toks, init, parse, 2),
                     ExpectedField(toks, init, parse, 3)),
                Vec3(ExpectedField(toks, init, parse, 4),
                     ExpectedField(toks, init, parse, 5),
                     ExpectedField(toks, init, parse, 6))))
  }

  lemma ExpectedPoseFields(toks: seq<string>, init: Pose, parse: string -> Option<real>, p: Pose)
    requires ExpectedPose(toks, init, parse) == Some(p)
    ensures forall k :: 1 <= k <= FieldCount ==> Field(p, k) == ExpectedField(toks, init, parse, k)
  {
  }

  /** The positional loop computes the reference decode, for every token list. */
  lemma {:induction false} DecodeTokensIsExpected(toks: seq<string>, init: Pose, parse: string -> Option<real>)
    ensures DecodeTokens(toks, init, parse) == ExpectedPose(toks, init, parse)
    decreases |toks|
  {
    if toks == [] {
      assert !SomeFieldMalformed(toks, parse);
      PoseExt(init, ExpectedPose(toks, init, parse).value);
    } else {
      var n := |toks|;
      var pre := toks[..n - 1];
      DecodeTokensIsExpected(pre, init, parse);
      assert forall j :: 0 <= j < n - 1 ==> pre[j] == toks[j];
      if SomeFieldMalformed(pre, parse) {
        var j :| 0 <= j < |pre| && j < FieldCount && parse(pre[j]).None?;
        assert parse(toks[j]).None?;
      } else {
        var p := DecodeTokens(pre, init, parse).value;
        ExpectedPoseFields(pre, init, parse, p);
        if n > FieldCount {
          assert !SomeFieldMalformed(toks, parse);
          var q := ExpectedPose(toks, init, parse).value;
          ExpectedPoseFields(toks, init, parse, q);
          PoseExt(p, q);
        } else if parse(toks[n - 1]).None? {
          assert SomeFieldMalformed(toks, parse);
        } else {
          assert !SomeFieldMalformed(toks, parse);
          var q := ExpectedPose(toks, init, parse).value;
          ExpectedPoseFields(toks, init, parse, q);
          PoseExt(SetField(p, n, parse(toks[n - 1]).value), q);
        }
      }
    }
  }

  /**
   * Token k (k = 1..6) lands in field k; a field whose position is not
   * reached keeps its initial value; the decode fails exactly when one of
   * the first six tokens does not convert.
   */
  lemma DecodeFields(toks: seq<string>, init: Pose, parse: string -> Option<real>)
    ensures DecodeTokens(toks, init, parse).None? <==>
      exists j :: 0 <= j < |toks| && j < FieldCount && parse(toks[j]).None?
    ensures DecodeTokens(toks, init, parse).Some? ==>
      forall k :: 1 <= k <= FieldCount ==>
        Field(DecodeTokens(toks, init, parse).value, k) ==
          if k <= |toks| then parse(toks[k - 1]).value else Field(init, k)
  {
    DecodeTokensIsExpected(toks, init, parse);
    if DecodeTokens(toks, init, parse).Some? {
      ExpectedPoseFields(toks, init, parse, DecodeTokens(toks, init, parse).value);
    }
  }

  /** Tokens after the sixth never matter, whatever they hold. */
  lemma {:induction false} DecodeIgnoresExtraTokens(toks: seq<string>, extra: seq<string>, init: Pose, parse: string -> Option<real>)
    requires |toks| >= FieldCount
    ensures DecodeTokens(toks + extra, init, parse) == DecodeTokens(toks, init, parse)
    decreases |extra|
  {
    if extra != [] {
      var all := toks + extra;
      DropLastOfAppend(toks, extra);
      DecodeIgnoresExtraTokens(toks, extra[..|extra| - 1], init, parse);
    } else {
      assert toks + extra == toks;
    }
  }

  /** The empty token a ';' adds after a payload that already ends in ';'. */
  function Gap(p: string): seq<string> {
    if p != [] && p[|p| - 1] == Delim then [[]] else []
  }

  /** Appending ';' to a non-empty payload adds a token only when it already ended in ';'. */
  lemma SplitDelimTerminated(p: string)
    requires p != []
    ensures Split(p + [Delim]) == Split(p) + Gap(p)
  {
    if p[|p| - 1] == Delim {
      SplitAppend(p, [Delim]);
      SplitHead([Delim], 0);
      assert [Delim][1..] == [];
    } else {
      TrailingDelimiter(p);
    }
  }

  /**
   * Appending ';' and further text to a payload that already has six
   * tokens decodes to the same pose.
   */
  lemma DecodeIgnoresAppendedTokens(payload: string, more: string, init: Pose, parse: string -> Option<real>)
    requires |Split(payload)| >= FieldCount
    ensures Decode(payload + [Delim] + more, init, parse) == Decode(payload, init, parse)
  {
    var toks := Split(payload);
    var extra := Gap(payload) + Split(more);
    assert Split(payload + [Delim] + more) == toks + extra by {
      SplitAppend(payload + [Delim], more);
      SplitDelimTerminated(payload);
      AppendAssoc(toks, Gap(payload), Split(more));
    }
    DecodeIgnoresExtraTokens(toks, extra, init, parse);
  }

  // ---------------------------------------------------------------------
  // The loop
  // ---------------------------------------------------------------------

  /** The text from `pos` up to the first ';' at or after it is the first token of the rest. */
  lemma SplitFrom(s: string, pos: nat, j: nat)
    requires pos < |s| && pos <= j <= |s| && (j == |s| || s[j] == Delim)
    requires forall i :: pos <= i < j ==> s[i] != Delim
    ensures Split(s[pos..]) == [s[pos..j]] + Split(s[if j < |s| then j + 1 else j..])
  {
    var t, m := s[pos..], j - pos;
    assert forall i :: 0 <= i < m ==> t[i] != Delim by {
      forall i | 0 <= i < m ensures t[i] != Delim {
        assert t[i] == s[pos + i];
      }
    }
    assert m == |t| || t[m] == Delim;
    SplitHead(t, m);
    if j < |s| {
      SplitFromCons(s, pos, j, t, m);
    } else {
      SplitFromLast(s, pos, t);
    }
  }

  lemma SplitFromCons(s: string, pos: nat, j: nat, t: string, m: nat)
    requires pos <= j < |s| && t == s[pos..] && m == j - pos
    requires Split(t) == [t[..m]] + Split(t[m + 1..])
    ensures Split(s[pos..]) == [s[pos..j]] + Split(s[j + 1..])
  {
    SliceOfSuffix(s, pos, j);
  }

  /** Slicing a suffix is slicing the whole at shifted indices. */
  lemma SliceOfSuffix<T>(s: seq<T>, pos: nat, j: nat)
    requires pos <= j < |s|
    ensures s[pos..][..j - pos] == s[pos..j]
    ensures s[pos..][j - pos + 1..] == s[j + 1..]
  {
  }

  lemma SplitFromLast(s: string, pos: nat, t: string)
    requires pos < |s| && t == s[pos..]
    requires Split(t) == [t]
    ensures Split(s[pos..]) == [s[pos..|s|]] + Split(s[|s|..])
  {
    assert s[|s|..] == [];
    assert Split(s[|s|..]) == [];
    assert s[pos..|s|] == t;
  }

  /**
   * One `std::getline(ss, token, ';')` on the payload read from `pos`:
   * fails at the end of the payload; otherwise yields the text up to the
   * next ';' (or the end) and moves past that ';'.
   */
  method GetLine(s: string, pos: nat) returns (ok: bool, token: string, next: nat)
    requires pos <= |s|
    ensures ok <==> pos < |s|
    ensures ok ==> pos < next <= |s| && Split(s[pos..]) == [token] + Split(s[next..])
    ensures ok ==> pos + |token| <= |s| && token == s[pos..pos + |token|] && Delim !in token
    ensures ok ==> next == if pos + |token| < |s| then pos + |token| + 1 else |s|
    ensures ok && pos + |token| < |s| ==> s[pos + |token|] == Delim
    ensures !ok ==> token == [] && next == pos
  {
    if pos == |s| {
      return false, [], pos;
    }
    var j := pos;
    while j < |s| && s[j] != Delim
      invariant pos <= j <= |s|
      invariant forall i :: pos <= i < j ==> s[i] != Delim
    {
      j := j + 1;
    }
    token := s[pos..j];
    next := if j < |s| then j + 1 else j;
    ok := true;
    TokenAt(s, pos, j);
  }

  /** What one `getline` yields when the scan from `pos` stops at `j`, at a ';' or the end. */
  lemma TokenAt(s: string, pos: nat, j: nat)
    requires pos < |s| && pos <= j <= |s| && (j == |s| || s[j] == Delim)
    requires forall i :: pos <= i < j ==> s[i] != Delim
    ensures var token, next := s[pos..j], if j < |s| then j + 1 else j;
      pos < next <= |s| && Split(s[pos..]) == [token] + Split(s[next..]) &&
      pos + |token| <= |s| && token == s[pos..pos + |token|] && Delim !in token &&
      next == (if pos + |token| < |s| then pos + |token| + 1 else |s|) &&
      (pos + |token| < |s| ==> s[pos + |token|] == Delim)
  {
    SliceUndelimited(s, pos, j);
    SplitFrom(s, pos, j);
  }

  /** A stretch with no ';' in it, cut out as a token, holds no ';'. */
  lemma SliceUndelimited(s: string, pos: nat, j: nat)
    requires pos <= j <= |s|
    requires forall i :: pos <= i < j ==> s[i] != Delim
    ensures |s[pos..j]| == j - pos && Delim !in s[pos..j]
  {
    var t := s[pos..j];
    forall i | 0 <= i < |t| ensures t[i] != Delim {
      assert t[i] == s[pos + i];
    }
  }

  /** A failed conversion among the consumed tokens makes the decode fail whatever follows. */
  lemma {:induction false} FailureIsFinal(toks: seq<string>, more: seq<string>, init: Pose, parse: string -> Option<real>)
    requires DecodeTokens(toks, init, parse).None?
    ensures DecodeTokens(toks + more, init, parse).None?
    decreases |more|
  {
    if more != [] {
      var all := toks + more;
      DropLastOfAppend(toks, more);
      FailureIsFinal(toks, more[..|more| - 1], init, parse);
    } else {
      assert toks + more == toks;
    }
  }

  /** One more pass of the loop body, stated on the token list. */
  lemma DecodeOneMore(seen: seq<string>, token: string, init: Pose, parse: string -> Option<real>, p: Pose)
    requires DecodeTokens(seen, init, parse) == Some(p)
    ensures var n := |seen| + 1;
      DecodeTokens(seen + [token], init, parse) ==
        if n > FieldCount then Some(p)
        else if parse(token).None? then None
        else Some(SetField(p, n, parse(token).value))
  {
    assert (seen + [token])[..|seen|] == seen;
  }

  /** While the decode of a prefix still succeeds, every field token in that prefix converted. */
  lemma ConvertedBefore(all: seq<string>, prefix: seq<string>, rest: seq<string>, init: Pose, parse: string -> Option<real>)
    requires all == prefix + rest
    requires DecodeTokens(prefix, init, parse).Some?
    ensures forall j :: 0 <= j < |prefix| && j < FieldCount ==> parse(all[j]).Some?
  {
    DecodeFields(prefix, init, parse);
    assert forall j :: 0 <= j < |prefix| ==> all[j] == prefix[j];
  }

  /** The `switch` on the counter: store `v` into component `i` of displacement, then rotation. */
  method Assign(displacement: Vec3, rotation: Vec3, i: nat, v: real) returns (d: Vec3, r: Vec3)
    requires 1 <= i <= FieldCount
    ensures Pose(d, r) == SetField(Pose(displacement, rotation), i, v)
  {
    d, r := displacement, rotation;
    match i {
      case 1 => d := d.(x := v);
      case 2 => d := d.(y := v);
      case 3 => d := d.(z := v);
      case 4 => r := r.(x := v);
      case 5 => r := r.(y := v);
      case 6 => r := r.(z := v);
    }
  }

  /**
   * The tokenise-and-assign loop of `transformation()`: starting from the
   * pose `init` the locals held before the loop, returns the decoded pose
   * and the final token counter; on a failed conversion, nothing and the
   * number of the offending token.
   */
  method DecodePayload(data: string, init: Pose, parse: string -> Option<real>) returns (pose: Option<Pose>, i: nat)
    ensures pose == Decode(data, init, parse)
    ensures pose.Some? ==> i == |Split(data)|
    ensures pose.None? ==> 1 <= i <= FieldCount && i <= |Split(data)| && parse(Split(data)[i - 1]).None?
    ensures pose.None? ==> forall j :: 0 <= j < i - 1 ==> parse(Split(data)[j]).Some?
  {
    var displacement, rotation := init.displacement, init.rotation;
    i := 0;
    var pos := 0;
    ghost var seen: seq<string> := [];
    while true
      invariant pos <= |data|
      invariant Split(data) == seen + Split(data[pos..])
      invariant i == |seen|
      invariant DecodeTokens(seen, init, parse) == Some(Pose(displacement, rotation))
      decreases |data| - pos
    {
      var ok, token, next := GetLine(data, pos);
      if !ok {
        break;
      }
      ghost var before, p := seen, Pose(displacement, rotation);
      i := i + 1;
      seen := seen + [token];
      AppendAssoc(before, [token], Split(data[next..]));
      DecodeOneMore(before, token, init, parse, p);
      if i <= FieldCount {
        var r := parse(token);
        if r.None? {
          FailureIsFinal(seen, Split(data[next..]), init, parse);
          assert Split(data)[i - 1] == seen[i - 1] == token;
          ConvertedBefore(Split(data), before, [token] + Split(data[next..]), init, parse);
          return None, i;
        }
        displacement, rotation := Assign(displacement, rotation, i, r.value);
      }
      pos := next;
    }
    assert data[pos..] == [];
    assert seen + [] == seen;
    pose := Some(Pose(displacement, rotation));
  }
}
