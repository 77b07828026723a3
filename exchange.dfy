/**
 * One blocking request/response exchange with the external controller, as
 * the leader process performs it once per simulation step: receive into a
 * zeroed 150-byte buffer, keep the received text, answer with a fixed
 * acknowledgement buffer, and check for the "exit" keyword.
 *
 * The socket itself is not modelled: the bytes one `read` delivers are a
 * parameter, and the bytes handed to `write` are a result.
 */
module Exchange {
  import opened CStrings

  const MAXBUFFERSIZE: nat := 150

  /** The keyword that would close the connection. */
  const ExitKeyword: string := "exit"

  /** The acknowledgement sent back every step: a newline, then NUL bytes up to the full buffer size. */
  function AckBuffer(): (ack: seq<char>)
    ensures |ack| == MAXBUFFERSIZE
    ensures ack[0] == '\n'
    ensures forall k :: 1 <= k < |ack| ==> ack[k] == NUL
  {
    ['\n'] + seq(MAXBUFFERSIZE - 1, _ => NUL)
  }

  /** The buffer-closing test: `strncmp("exit", buf, 4) == 0`. It never passes on a buffer shorter than the keyword. */
  function ExitRequested(buf: seq<char>): (r: bool)
    ensures r ==> |buf| >= |ExitKeyword|
  {
    StrNCmpFits(ExitKeyword, buf);
    StrNCmp(ExitKeyword, buf, |ExitKeyword|) == 0
  }

  /** The exit test accepts a buffer exactly when the buffer starts with "exit". */
  lemma ExitRequestedIff(buf: seq<char>)
    requires |buf| >= |ExitKeyword|
    ensures ExitRequested(buf) <==> buf[..4] == ExitKeyword
  {
    StrNCmpLiteral(ExitKeyword, buf);
  }

  /** The test is applied to the acknowledgement, which never starts with "exit": the close branch is dead. */
  lemma AckNeverRequestsExit()
    ensures !ExitRequested(AckBuffer())
  {
    ExitRequestedIff(AckBuffer());
    assert AckBuffer()[..4][0] == '\n';
  }

  /** A received "exit" would pass the test, had the test been applied to the received bytes. */
  lemma ReceivedExitWouldPass(received: seq<char>)
    requires |received| >= |ExitKeyword| && received[..4] == ExitKeyword
    ensures ExitRequested(received)
  {
    ExitRequestedIff(received);
  }

  /**
   * `read(sockfd, buf, sizeof(buf))` with the delivered bytes given:
   * they land at the front of the buffer and the rest is left as it was.
   */
  method Receive(buf: array<char>, received: seq<char>)
    requires |received| <= buf.Length
    modifies buf
    ensures buf[..] == received + old(buf[|received|..])
  {
    var k := 0;
    while k < |received|
      invariant 0 <= k <= |received|
      invariant buf[..k] == received[..k]
      invariant buf[k..] == old(buf[k..])
    {
      buf[k] := received[k];
      k := k + 1;
      assert buf[..k] == buf[..k - 1] + [buf[k - 1]];
    }
  }

  /**
   * The body of `func`: returns the received text, the acknowledgement
   * written back, and whether the connection was closed. A read filling
   * all 150 bytes without a NUL leaves the buffer unterminated, so the
   * delivered bytes must be shorter than the buffer or hold a NUL.
   */
  method Func(received: seq<char>) returns (data: string, ack: seq<char>, closed: bool)
    requires |received| <= MAXBUFFERSIZE
    requires |received| < MAXBUFFERSIZE || NUL in received
    ensures data == CStr(received)
    ensures |data| < MAXBUFFERSIZE
    ensures ack == AckBuffer()
    ensures !closed
  {
    var buff := new char[MAXBUFFERSIZE];
    Zero(buff);
    ghost var zeros := buff[|received|..];
    Receive(buff, received);
    assert buff[..] == received + zeros;
    if |received| < MAXBUFFERSIZE {
      assert zeros[0] == NUL;
      assert buff[|received|] == NUL;
    } else {
      assert buff[..] == received;
    }
    CStrOfPadded(received, zeros);
    data := StringOf(buff);

    Zero(buff);
    buff[0] := '\n';
    ack := buff[..];
    assert ack == AckBuffer();

    AckNeverRequestsExit();
    closed := false;
    if ExitRequested(buff[..]) {
      closed := true;
    }
  }
}
