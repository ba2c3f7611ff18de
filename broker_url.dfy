/** The device's broker-URL prompt (`mqtt_app_start` built with
    CONFIG_BROKER_URL_FROM_STDIN): characters from the console are read into a
    128-byte line buffer until a newline, and the line becomes the broker URI. */
module BrokerUrl {

  /** Size of the `line` buffer. */
  const LINE_CAPACITY: nat := 128

  /** What `fgetc` returns for '\n'. */
  const NEWLINE: int := 10

  /** The configured URI that asks for the URL to be typed in. */
  const FROM_STDIN: string := "FROM_STDIN"

  /** A character the reader stores: `0 < c < 127`. EOF (-1), NUL and DEL
      (127) and everything above are skipped. */
  predicate Storable(c: int) {
    0 < c < 127
  }

  /** The storable characters of `input`, in order: what the buffer would hold
      if it were large enough and no newline came. */
  function Accepted(input: seq<int>): (r: seq<char>)
    ensures |r| <= |input|
    ensures forall k :: 0 <= k < |r| ==> Storable(r[k] as int)
    decreases |input|
  {
    if |input| == 0 then []
    else
      var n := |input| - 1;
      Accepted(input[..n]) + (if Storable(input[n]) then [input[n] as char] else [])
  }

  /** Where the read loop stands once the console input so far is consumed. */
  datatype LineRead =
    | Pending(stored: seq<char>)                             // no newline yet, room left: still polling
    | Finished(stored: seq<char>, terminated: bool, consumed: nat) // the loop has exited

  /** The read loop from `consumed` on, with `stored` already in the buffer and
      room for `cap` characters: it exits on a newline (writing the
      terminator) or once `cap` characters are stored (writing none). */
  function ReadFrom(input: seq<int>, cap: nat, stored: seq<char>, consumed: nat): (r: LineRead)
    requires consumed <= |input|
    ensures stored <= r.stored
    ensures |stored| <= cap ==> |r.stored| <= cap
    ensures r.Finished? ==> consumed <= r.consumed <= |input|
    ensures r.Finished? && r.terminated ==> consumed < r.consumed && |r.stored| < cap && input[r.consumed - 1] == NEWLINE
    decreases |input| - consumed
  {
    if |stored| >= cap then Finished(stored, false, consumed)
    else if consumed == |input| then Pending(stored)
    else if input[consumed] == NEWLINE then Finished(stored, true, consumed + 1)
    else if Storable(input[consumed]) then ReadFrom(input, cap, stored + [input[consumed] as char], consumed + 1)
    else ReadFrom(input, cap, stored, consumed + 1)
  }

  /** The loop as written, over the 128-byte buffer. */
  function ReadLine(input: seq<int>): (r: LineRead)
    ensures Explains(input, LINE_CAPACITY, r)
  {
    ReadFromExplained(input, LINE_CAPACITY, [], 0);
    ReadFrom(input, LINE_CAPACITY, [], 0)
  }

  /** What a loop outcome says about the input: the buffer holds exactly the
      storable characters before the newline or before the point where the
      buffer filled; a newline ends the read with room left for the
      terminator; a full buffer means no newline was seen. */
  predicate Explains(input: seq<int>, cap: nat, r: LineRead) {
    match r
    case Pending(stored) =>
      NEWLINE !in input && stored == Accepted(input) && |stored| < cap
    case Finished(stored, terminated, consumed) =>
      if terminated then
        && 0 < consumed <= |input| && input[consumed - 1] == NEWLINE
        && NEWLINE !in input[..consumed - 1]
        && stored == Accepted(input[..consumed - 1]) && |stored| < cap
      else
        && consumed <= |input| && NEWLINE !in input[..consumed]
        && stored == Accepted(input[..consumed]) && |stored| == cap
  }

  lemma {:induction false} ReadFromExplained(input: seq<int>, cap: nat, stored: seq<char>, consumed: nat)
    requires consumed <= |input|
    requires NEWLINE !in input[..consumed]
    requires stored == Accepted(input[..consumed]) && |stored| <= cap
    ensures Explains(input, cap, ReadFrom(input, cap, stored, consumed))
    decreases |input| - consumed
  {
    if |stored| < cap && consumed < |input| && input[consumed] != NEWLINE {
      assert input[..consumed + 1][..consumed] == input[..consumed];
      assert input[..consumed + 1] == input[..consumed] + [input[consumed]];
      var next := if Storable(input[consumed]) then stored + [input[consumed] as char] else stored;
      ReadFromExplained(input, cap, next, consumed + 1);
    } else if |stored| < cap && consumed == |input| {
      assert input[..consumed] == input;
    }
  }

  /** Reading more input only adds accepted characters at the end. */
  lemma {:induction false} AcceptedGrows(input: seq<int>, i: nat, j: nat)
    requires i <= j <= |input|
    ensures Accepted(input[..i]) <= Accepted(input[..j])
    decreases j - i
  {
    if i < j {
      AcceptedGrows(input, i, j - 1);
      assert input[..j][..j - 1] == input[..j - 1];
    }
  }

  /** A line of only storable characters is stored whole, character for
      character. */
  lemma {:induction false} AcceptedAllStorable(input: seq<int>)
    requires forall k :: 0 <= k < |input| ==> Storable(input[k])
    ensures |Accepted(input)| == |input|
    ensures forall k :: 0 <= k < |input| ==> Accepted(input)[k] as int == input[k]
    decreases |input|
  {
    if |input| > 0 {
      AcceptedAllStorable(input[..|input| - 1]);
    }
  }

  /** Once 128 storable characters have arrived with no newline among them,
      the loop has exited with the buffer full and no terminator written. */
  lemma {:induction false} FullBufferIsUnterminated(input: seq<int>, p: nat)
    requires p <= |input|
    requires NEWLINE !in input[..p] && |Accepted(input[..p])| >= LINE_CAPACITY
    ensures ReadLine(input).Finished? && !ReadLine(input).terminated
    ensures |ReadLine(input).stored| == LINE_CAPACITY
  {
    var r := ReadLine(input);
    match r {
      case Pending(stored) =>
        assert input[..|input|] == input;
        AcceptedGrows(input, p, |input|);
      case Finished(stored, terminated, consumed) =>
        if terminated {
          AcceptedGrows(input, p, consumed - 1);
        }
    }
  }

  /** The loop over the `line` array as written: `input` is what `fgetc`
      returns on successive calls (EOF is -1). It returns the buffer, the
      number of characters stored, whether a newline was read (and the
      terminator written), how many calls were made, and whether the input
      ran out with the loop still polling. */
  method ReadIntoBuffer(input: seq<int>) returns (line: array<char>, count: nat, terminated: bool, consumed: nat, polling: bool)
    ensures line.Length == LINE_CAPACITY && count <= LINE_CAPACITY
    ensures polling ==> ReadLine(input) == Pending(line[..count])
    ensures !polling ==> ReadLine(input) == Finished(line[..count], terminated, consumed)
    ensures terminated ==> count < LINE_CAPACITY && line[count] == 0 as char
  {
    line := new char[LINE_CAPACITY];
    count, consumed, terminated, polling := 0, 0, false, false;
    while count < LINE_CAPACITY
      invariant count <= LINE_CAPACITY && consumed <= |input|
      invariant ReadFrom(input, LINE_CAPACITY, line[..count], consumed) == ReadLine(input)
      invariant !terminated && !polling
      decreases |input| - consumed
    {
      if consumed == |input| {
        polling := true;
        return;
      }
      var c := input[consumed];
      consumed := consumed + 1;
      if c == NEWLINE {
        line[count] := 0 as char;
        terminated := true;
        return;
      } else if 0 < c < 127 {
        line[count] := c as char;
        assert line[..count + 1] == line[..count] + [c as char];
        count := count + 1;
      }
    }
  }

  /** What starting the client leaves behind. */
  datatype Start =
    | Started(uri: seq<char>)        // client created, handle stored for the poll loop
    | Aborted                        // configuration mismatch: `abort()`
    | AwaitingUrl                    // still polling the console for the URL
    | Unterminated(stored: seq<char>) // URI buffer without its NUL: the C string runs past `line`

  /** `uri` is the storable text typed before the first newline, with fewer
      than `cap` characters of it. */
  predicate TypedLine(input: seq<int>, uri: seq<char>, cap: nat) {
    exists n :: 0 <= n < |input| && input[n] == NEWLINE && NEWLINE !in input[..n]
                && uri == Accepted(input[..n]) && |uri| < cap
  }

  /** `stored` is the first `cap` storable characters of `input`, typed with no
      newline among them. */
  predicate FullLine(input: seq<int>, stored: seq<char>, cap: nat) {
    exists p :: 0 <= p <= |input| && NEWLINE !in input[..p]
                && stored == Accepted(input[..p]) && |stored| == cap
  }

  /** `mqtt_app_start` as written: without the console option the configured
      URI is used; with it, a configured URI other than "FROM_STDIN" aborts
      and otherwise the typed line becomes the URI. */
  function StartClient(fromStdin: bool, configured: string, input: seq<int>): (r: Start)
    ensures !fromStdin ==> r == Started(configured)
    ensures r == Aborted <==> fromStdin && configured != FROM_STDIN
    ensures fromStdin && r.Started? ==> |r.uri| < LINE_CAPACITY && forall k :: 0 <= k < |r.uri| ==> Storable(r.uri[k] as int)
    ensures fromStdin && r.Started? ==> TypedLine(input, r.uri, LINE_CAPACITY)
    ensures r == AwaitingUrl ==> NEWLINE !in input && |Accepted(input)| < LINE_CAPACITY
    ensures r.Unterminated? ==> FullLine(input, r.stored, LINE_CAPACITY)
  {
    if !fromStdin then Started(configured)
    else if configured != FROM_STDIN then Aborted
    else
      match ReadLine(input)
      case Pending(_) => AwaitingUrl
      case Finished(stored, terminated, consumed) =>
        if terminated then
          assert input[consumed - 1] == NEWLINE;
          Started(stored)
        else
          assert NEWLINE !in input[..consumed];
          Unterminated(stored)
  }

  /** 128 'a' typed without a newline leave `line` with no terminator, so the
      string handed on as the broker URI has no end inside the buffer. */
  lemma UnterminatedUrlExample()
    ensures StartClient(true, FROM_STDIN, seq(128, _ => 0x61)).Unterminated?
  {
    var input: seq<int> := seq(128, _ => 0x61);
    AcceptedAllStorable(input);
    assert input[..128] == input;
    FullBufferIsUnterminated(input, 128);
  }

  /** The read loop bounded by one less than the buffer, so that the
      terminator always has a slot, and written whichever way the loop ends:
      the URI is the text before the first newline or, on a long line, its
      first 127 storable characters. */
  function StartClientTerminated(fromStdin: bool, configured: string, input: seq<int>): (r: Start)
    ensures !r.Unterminated?
    ensures !fromStdin ==> r == Started(configured)
    ensures r == Aborted <==> fromStdin && configured != FROM_STDIN
    ensures fromStdin && r.Started? ==> |r.uri| < LINE_CAPACITY && forall k :: 0 <= k < |r.uri| ==> Storable(r.uri[k] as int)
    ensures fromStdin && r.Started? ==>
              TypedLine(input, r.uri, LINE_CAPACITY - 1) || FullLine(input, r.uri, LINE_CAPACITY - 1)
    ensures r == AwaitingUrl ==> NEWLINE !in input && |Accepted(input)| < LINE_CAPACITY - 1
  {
    if !fromStdin then Started(configured)
    else if configured != FROM_STDIN then Aborted
    else
      ReadFromExplained(input, LINE_CAPACITY - 1, [], 0);
      match ReadFrom(input, LINE_CAPACITY - 1, [], 0)
      case Pending(_) => AwaitingUrl
      case Finished(stored, terminated, consumed) =>
        if terminated then
          assert input[consumed - 1] == NEWLINE;
          Started(stored)
        else
          assert NEWLINE !in input[..consumed];
          Started(stored)
  }

  /** The bounded reader agrees with the original wherever the original hands
      on a terminated URI. */
  lemma {:induction false} TerminatedAgreesOnShortLines(configured: string, input: seq<int>)
    requires StartClient(true, configured, input).Started?
    ensures StartClientTerminated(true, configured, input) == StartClient(true, configured, input)
  {
    ReadFromExplained(input, LINE_CAPACITY - 1, [], 0);
    var r := ReadLine(input);
    var n := r.consumed;
    var s := ReadFrom(input, LINE_CAPACITY - 1, [], 0);
    // Both readers stop at the same newline, index n - 1, unless the bounded
    // one fills its 127 slots first; then only skipped characters come
    // between its stop and that newline.
    if s.Finished? && !s.terminated {
      AcceptedGrows(input, s.consumed, n - 1);
    }
  }

  /** On 128 'a' without a newline the bounded reader stores the first 127 and
      hands on a terminated URI. */
  lemma TerminatedUrlExample()
    ensures StartClientTerminated(true, FROM_STDIN, seq(128, _ => 0x61)) == Started(seq(127, _ => 'a'))
  {
    var input: seq<int> := seq(128, _ => 0x61);
    AcceptedAllStorable(input);
    ReadFromExplained(input, LINE_CAPACITY - 1, [], 0);
    var s := ReadFrom(input, LINE_CAPACITY - 1, [], 0);
    assert s.Finished? && !s.terminated;
    AcceptedAllStorable(input[..s.consumed]);
    assert s.stored == seq(127, _ => 'a');
  }
}
