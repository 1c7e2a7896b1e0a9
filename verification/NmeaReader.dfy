/** Line framing and tokenizing of the GPS stream (common/hardware/libhardware/gps/gps.c:
    nmea_reader_addc, nmea_tokenizer_init). What nmea_reader_parse does with a line is left out;
    the model records the lines it is handed. */
module NmeaReader {
  const NMEA_MAX_SIZE := 83
  const MAX_NMEA_TOKENS := 16

  // ---------------------------------------------------------------- the framing machine

  /** The bytes collected so far, whether an over-long line is being skipped, and the lines handed
      to nmea_reader_parse. */
  datatype Framer = Framer(collected: string, overflow: bool, parsed: seq<string>)

  function AddByte(f: Framer, c: char): Framer {
    if f.overflow then f.(overflow := c != '\n')
    else if |f.collected| >= NMEA_MAX_SIZE then Framer("", true, f.parsed)
    else if c == '\n' then Framer("", false, f.parsed + [f.collected + [c]])
    else f.(collected := f.collected + [c])
  }

  function AddBytes(f: Framer, stream: string): Framer
    decreases |stream|
  {
    if stream == "" then f else AddBytes(AddByte(f, stream[0]), stream[1..])
  }

  const EMPTY := Framer("", false, [])

  class Reader {
    var pos: nat
    var overflow: bool
    const buffer: array<char>       // in
    ghost var parsed: seq<string>   // the lines handed to nmea_reader_parse

    /** pos stays within the 84 byte buffer. */
    ghost predicate Valid()
      reads this
    {
      buffer.Length == NMEA_MAX_SIZE + 1 && pos <= NMEA_MAX_SIZE && (overflow ==> pos == 0)
    }

    ghost function State(): Framer
      requires Valid()
      reads this, buffer
    {
      Framer(buffer[..pos], overflow, parsed)
    }

    constructor ()
      ensures Valid() && State() == EMPTY && fresh(buffer)
    {
      buffer := new char[NMEA_MAX_SIZE + 1];
      pos, overflow, parsed := 0, false, [];
    }

    /** nmea_reader_addc; `line` is what nmea_reader_parse is called with, if it is called. */
    method AddC(c: char) returns (line: string)
      requires Valid()
      modifies this`pos, this`overflow, this`parsed, buffer
      ensures Valid() && State() == AddByte(old(State()), c)
      ensures parsed == old(parsed) + (if line == "" then [] else [line])
    {
      line := "";
      if overflow {
        overflow := c != '\n';
        return;
      }
      if pos >= buffer.Length - 1 {
        overflow, pos := true, 0;
        return;
      }
      buffer[pos] := c;
      pos := pos + 1;
      assert buffer[..pos] == old(buffer[..pos]) + [c];
      if c == '\n' {
        line := buffer[..pos];
        parsed := parsed + [line];
        pos := 0;
      }
    }
  }

  // ---------------------------------------------------------------- against the lines of the stream

  /** A line is a string whose only newline is its last byte. */
  predicate IsLine(s: string) {
    && s != ""
    && s[|s| - 1] == '\n'
    && forall i :: 0 <= i < |s| - 1 ==> s[i] != '\n'
  }

  ghost predicate AreLines(lines: seq<string>) {
    forall k :: 0 <= k < |lines| ==> IsLine(lines[k])
  }

  function Join(lines: seq<string>): string {
    if lines == [] then "" else lines[0] + Join(lines[1..])
  }

  /** What one would expect: the lines that fit the buffer, in order and unchanged. */
  function ShortLines(lines: seq<string>): seq<string> {
    if lines == [] then []
    else (if |lines[0]| <= NMEA_MAX_SIZE then [lines[0]] else []) + ShortLines(lines[1..])
  }

  /** What the code hands over: the newline of a line of exactly 84 bytes is taken for the byte
      that overflows the buffer, so the line after it is skipped as well. */
  function Framed(lines: seq<string>, skipping: bool): seq<string> {
    if lines == [] then []
    else if skipping then Framed(lines[1..], false)
    else if |lines[0]| <= NMEA_MAX_SIZE then [lines[0]] + Framed(lines[1..], false)
    else Framed(lines[1..], |lines[0]| == NMEA_MAX_SIZE + 1)
  }

  lemma {:induction false} AddBytesConcat(f: Framer, a: string, b: string)
    ensures AddBytes(f, a + b) == AddBytes(AddBytes(f, a), b)
    decreases |a|
  {
    if a == "" {
      assert a + b == b;
    } else {
      assert (a + b)[1..] == a[1..] + b;
      AddBytesConcat(AddByte(f, a[0]), a[1..], b);
    }
  }

  /** Bytes other than newlines that still fit are collected. */
  lemma {:induction false} Collects(f: Framer, s: string)
    requires !f.overflow && |f.collected| + |s| <= NMEA_MAX_SIZE && '\n' !in s
    ensures AddBytes(f, s) == f.(collected := f.collected + s)
    decreases |s|
  {
    if s == "" {
      assert f.collected + s == f.collected;
    } else {
      assert s[0] in s && forall c :: c in s[1..] ==> c in s;
      Collects(f.(collected := f.collected + [s[0]]), s[1..]);
      assert f.collected + [s[0]] + s[1..] == f.collected + s;
    }
  }

  /** While an over-long line is skipped, everything up to its newline vanishes. */
  lemma {:induction false} Skips(f: Framer, s: string)
    requires f.overflow && f.collected == "" && IsLine(s)
    ensures AddBytes(f, s) == f.(overflow := false)
    decreases |s|
  {
    if |s| == 1 {
      assert s[1..] == "";
    } else {
      assert s[0] != '\n';
      assert IsLine(s[1..]);
      Skips(f, s[1..]);
    }
  }

  lemma OneShortLine(parsed: seq<string>, s: string)
    requires IsLine(s) && |s| <= NMEA_MAX_SIZE
    ensures AddBytes(Framer("", false, parsed), s) == Framer("", false, parsed + [s])
  {
    var f, body := Framer("", false, parsed), s[..|s| - 1];
    Collects(f, body);
    AddBytesConcat(f, body, "\n");
    assert body + "\n" == s && "" + body == body;
    var g := f.(collected := body);
    assert AddBytes(g, "\n") == AddByte(g, '\n');
  }

  /** Byte 84 sets the overflow flag and is dropped. */
  lemma OverflowsAt84(parsed: seq<string>, head: string, next: char)
    requires |head| == NMEA_MAX_SIZE && '\n' !in head
    ensures AddBytes(Framer("", false, parsed), head + [next]) == Framer("", true, parsed)
  {
    var f := Framer("", false, parsed);
    Collects(f, head);
    AddBytesConcat(f, head, [next]);
    assert "" + head == head;
    var full := f.(collected := head);
    assert AddBytes(full, [next]) == AddByte(full, next);
  }

  lemma OneLongLine(parsed: seq<string>, s: string)
    requires IsLine(s) && |s| > NMEA_MAX_SIZE
    ensures AddBytes(Framer("", false, parsed), s) == Framer("", |s| == NMEA_MAX_SIZE + 1, parsed)
  {
    var head, next, tail := s[..NMEA_MAX_SIZE], s[NMEA_MAX_SIZE], s[NMEA_MAX_SIZE + 1..];
    OverflowsAt84(parsed, head, next);
    AddBytesConcat(Framer("", false, parsed), head + [next], tail);
    assert s == (head + [next]) + tail;
    if tail != "" {
      assert IsLine(tail);
      Skips(Framer("", true, parsed), tail);
    }
  }

  /** What one complete line does to the machine between lines. */
  lemma OneLine(parsed: seq<string>, s: string)
    requires IsLine(s)
    ensures AddBytes(Framer("", false, parsed), s) ==
            Framer("", |s| == NMEA_MAX_SIZE + 1, if |s| <= NMEA_MAX_SIZE then parsed + [s] else parsed)
  {
    if |s| <= NMEA_MAX_SIZE {
      OneShortLine(parsed, s);
    } else {
      OneLongLine(parsed, s);
    }
  }

  /** On any stream of complete lines the machine hands over exactly Framed(lines). */
  lemma {:induction false} FramesLines(lines: seq<string>, parsed: seq<string>, skipping: bool)
    requires AreLines(lines)
    ensures AddBytes(Framer("", skipping, parsed), Join(lines)).parsed == parsed + Framed(lines, skipping)
    decreases lines
  {
    if lines == [] {
      assert parsed + [] == parsed;
    } else {
      var s := lines[0];
      assert IsLine(s);
      var f := Framer("", skipping, parsed);
      AddBytesConcat(f, s, Join(lines[1..]));
      if skipping {
        Skips(f, s);
        FramesLines(lines[1..], parsed, false);
      } else {
        OneLine(parsed, s);
        var more := if |s| <= NMEA_MAX_SIZE then parsed + [s] else parsed;
        FramesLines(lines[1..], more, |s| == NMEA_MAX_SIZE + 1);
        assert parsed + ([s] + Framed(lines[1..], false)) == (parsed + [s]) + Framed(lines[1..], false);
      }
    }
  }

  // ---------------------------------------------------------------- when the two agree

  /** How many lines of exactly 84 bytes stand immediately before line k. */
  function ExactRun(lines: seq<string>, k: nat): nat
    requires k <= |lines|
  {
    if k == 0 || |lines[k - 1]| != NMEA_MAX_SIZE + 1 then 0 else 1 + ExactRun(lines, k - 1)
  }

  /** A line that fits is lost if the run of 84 byte lines before it has odd length. */
  predicate Swallowed(lines: seq<string>, k: nat)
    requires k < |lines|
  {
    |lines[k]| <= NMEA_MAX_SIZE && ExactRun(lines, k) % 2 == 1
  }

  lemma {:induction false} FramedFrom(lines: seq<string>, k: nat)
    requires k <= |lines|
    ensures var framed := Framed(lines[k..], ExactRun(lines, k) % 2 == 1);
      && |framed| <= |ShortLines(lines[k..])|
      && (framed == ShortLines(lines[k..]) <==> forall j :: k <= j < |lines| ==> !Swallowed(lines, j))
    decreases |lines| - k
  {
    if k == |lines| {
    } else {
      FramedFrom(lines, k + 1);
      var rest := lines[k + 1..];
      assert lines[k..][1..] == rest && lines[k..][0] == lines[k];
      assert ExactRun(lines, k + 1) % 2 == 1 <==> ExactRun(lines, k) % 2 == 0 && |lines[k]| == NMEA_MAX_SIZE + 1;
      if |lines[k]| <= NMEA_MAX_SIZE {
        assert ExactRun(lines, k + 1) == 0;
        if ExactRun(lines, k) % 2 == 0 {
          assert ([lines[k]] + Framed(rest, false))[1..] == Framed(rest, false);
          assert ([lines[k]] + ShortLines(rest))[1..] == ShortLines(rest);
        } else {
          assert Swallowed(lines, k);
        }
      } else {
        assert [] + ShortLines(rest) == ShortLines(rest);
      }
    }
  }

  /** The lines of a stream: its complete lines and what follows the last newline. */
  function SplitLines(stream: string): (r: (seq<string>, string))
    ensures AreLines(r.0) && '\n' !in r.1 && Join(r.0) + r.1 == stream
    decreases |stream|
  {
    if stream == "" then ([], "")
    else
      var (lines, tail) := SplitLines(stream[1..]);
      if stream[0] == '\n' then (["\n"] + lines, tail)
      else if lines == [] then ([], [stream[0]] + tail)
      else ([[stream[0]] + lines[0]] + lines[1..], tail)
  }

  /** An incomplete last line is not handed over. */
  lemma {:induction false} TailParsesNothing(f: Framer, tail: string)
    requires '\n' !in tail
    ensures AddBytes(f, tail).parsed == f.parsed
    decreases |tail|
  {
    if tail == "" {
    } else {
      assert tail[0] in tail && forall c :: c in tail[1..] ==> c in tail;
      TailParsesNothing(AddByte(f, tail[0]), tail[1..]);
    }
  }

  /** For every byte stream: the lines handed over are exactly the lines of at most 83 bytes, in
      order and unchanged, if and only if no such line follows a run of an odd number of lines of
      exactly 84 bytes. */
  lemma FramingIsExactIff(stream: string)
    ensures var lines := SplitLines(stream).0;
      AddBytes(EMPTY, stream).parsed == ShortLines(lines) <==> forall k :: 0 <= k < |lines| ==> !Swallowed(lines, k)
  {
    var (lines, tail) := SplitLines(stream);
    AddBytesConcat(EMPTY, Join(lines), tail);
    TailParsesNothing(AddBytes(EMPTY, Join(lines)), tail);
    FramesLines(lines, [], false);
    FramedFrom(lines, 0);
    assert lines[0..] == lines && [] + Framed(lines, false) == Framed(lines, false);
  }

  /** In particular without lines of exactly 84 bytes the framing is right. */
  lemma FramingWithoutExactLines(stream: string)
    requires forall k :: 0 <= k < |SplitLines(stream).0| ==> |SplitLines(stream).0[k]| != NMEA_MAX_SIZE + 1
    ensures AddBytes(EMPTY, stream).parsed == ShortLines(SplitLines(stream).0)
  {
    FramingIsExactIff(stream);
  }

  /** A stream on which the framing is wrong: a line of 84 bytes swallows the short one after it. */
  lemma ExactLineSwallowsExample()
    ensures var lines := [seq(NMEA_MAX_SIZE, _ => 'A') + "\n", "B\n"];
      && AreLines(lines)
      && AddBytes(EMPTY, Join(lines)).parsed == []
      && ShortLines(lines) == ["B\n"]
  {
    var long := seq(NMEA_MAX_SIZE, _ => 'A') + "\n";
    var lines := [long, "B\n"];
    FramesLines(lines, [], false);
    assert lines[1..] == ["B\n"];
    assert Framed(lines, false) == Framed(["B\n"], true) == Framed([], false);
    assert ShortLines(["B\n"]) == ["B\n"];
  }

  // ---------------------------------------------------------------- the tokenizer

  /** The comma separated fields of a string, empty ones included. */
  function Fields(s: string): (r: seq<string>)
    ensures r != []
    decreases |s|
  {
    if s == "" then [""]
    else
      var rest := Fields(s[1..]);
      if s[0] == ',' then [""] + rest else [[s[0]] + rest[0]] + rest[1..]
  }

  function JoinFields(fields: seq<string>): string
    requires fields != []
  {
    if |fields| == 1 then fields[0] else fields[0] + "," + JoinFields(fields[1..])
  }

  /** Fields takes a string apart at its commas, and joining puts it together again. */
  lemma {:induction false} FieldsRoundTrip(s: string)
    ensures JoinFields(Fields(s)) == s
    ensures forall k :: 0 <= k < |Fields(s)| ==> ',' !in Fields(s)[k]
    decreases |s|
  {
    if s == "" {
    } else {
      FieldsRoundTrip(s[1..]);
    }
  }

  function NonEmpty(fields: seq<string>): seq<string> {
    if fields == [] then []
    else (if fields[0] == "" then [] else [fields[0]]) + NonEmpty(fields[1..])
  }

  function UpTo(limit: nat, s: seq<string>): seq<string> {
    if |s| <= limit then s else s[..limit]
  }

  function WithoutDollar(s: string): string {
    if s != "" && s[0] == '$' then s[1..] else s
  }

  function WithoutLineEnd(s: string): string {
    if s == "" || s[|s| - 1] != '\n' then s
    else if |s| >= 2 && s[|s| - 2] == '\r' then s[..|s| - 2]
    else s[..|s| - 1]
  }

  function WithoutChecksum(s: string): string {
    if |s| >= 3 && s[|s| - 3] == '*' then s[..|s| - 3] else s
  }

  /** The sentence without the optional `$`, the line end and the checksum. */
  function Body(s: string): string {
    WithoutChecksum(WithoutLineEnd(WithoutDollar(s)))
  }

  /** Of a complete sentence the payload is left. */
  lemma BodyOfSentence(payload: string, checksum: string)
    requires |checksum| == 2
    ensures Body("$" + (payload + "*" + checksum) + "\r\n") == payload
    ensures checksum[1] !in "\r\n" ==> Body("$" + (payload + "*" + checksum) + "\n") == payload
  {
    BodyOfLine(payload + "*" + checksum);
    ChecksumGoes(payload, checksum);
  }

  lemma ChecksumGoes(payload: string, checksum: string)
    requires |checksum| == 2
    ensures var starred := payload + "*" + checksum;
      WithoutChecksum(starred) == payload && starred[|starred| - 1] == checksum[1]
  {
    var starred := payload + "*" + checksum;
    assert starred[|starred| - 3] == '*' && starred[..|starred| - 3] == payload;
  }

  predicate NoStar(s: string) {
    |s| >= 3 ==> s[|s| - 3] != '*'
  }

  lemma BodyOfLine(s: string)
    ensures WithoutLineEnd(WithoutDollar("$" + s + "\r\n")) == s
    ensures s == "" || s[|s| - 1] != '\r' ==> WithoutLineEnd(WithoutDollar("$" + s + "\n")) == s
    ensures s == "" || s[|s| - 1] != '\n' ==> WithoutLineEnd(WithoutDollar("$" + s)) == s
  {
    assert ("$" + s + "\r\n")[1..] == s + "\r\n";
    assert ("$" + s + "\n")[1..] == s + "\n";
    assert ("$" + s)[1..] == s;
    assert (s + "\r\n")[..|s|] == s && (s + "\n")[..|s|] == s;
  }

  /** The dollar sign, the carriage return, the line end and the checksum are each optional. */
  lemma BodyWithoutChecksum(payload: string)
    requires NoStar(payload)
    ensures Body("$" + payload + "\r\n") == payload
    ensures payload == "" || payload[|payload| - 1] !in "\r\n" ==>
              Body("$" + payload + "\n") == Body("$" + payload) == payload
    ensures payload != "" && payload[0] != '$' && payload[|payload| - 1] !in "\r\n" ==> Body(payload) == payload
  {
    BodyOfLine(payload);
  }

  /** Every field that is not empty is kept, as often as it occurs, and no other. */
  lemma {:induction false} NonEmptyKeeps(fields: seq<string>, x: string)
    ensures multiset(NonEmpty(fields))[x] == if x == "" then 0 else multiset(fields)[x]
  {
    if fields == [] {
    } else {
      NonEmptyKeeps(fields[1..], x);
      assert fields == [fields[0]] + fields[1..];
    }
  }

  lemma {:induction false} FirstField(s: string, q: nat)
    requires q <= |s| && ',' !in s[..q] && (q < |s| ==> s[q] == ',')
    ensures Fields(s) == if q < |s| then [s[..q]] + Fields(s[q + 1..]) else [s]
    decreases q
  {
    if q == 0 {
    } else {
      assert s[..q][0] == s[0] && s[1..][..q - 1] == s[..q][1..];
      assert forall c :: c in s[..q][1..] ==> c in s[..q];
      FirstField(s[1..], q - 1);
      if q < |s| {
        assert s[1..][q - 1 + 1..] == s[q + 1..];
        assert [s[0]] + s[1..][..q - 1] == s[..q];
      } else {
        assert [s[0]] + s[1..] == s;
      }
    }
  }

  lemma SliceOfSlice(s: string, p: nat, end: nat, k: nat)
    requires p <= end <= |s| && k <= end - p
    ensures s[p..end][..k] == s[p..p + k]
  {
  }

  /** The first part of nmea_tokenizer_init: what is left between p and end. */
  method Strip(s: string) returns (p: nat, end: nat)
    ensures p <= end <= |s| && s[p..end] == Body(s)
  {
    p, end := 0, |s|;
    if p < end && s[0] == '$' {
      p := p + 1;
    }
    ghost var a := s[p..end];
    assert a == WithoutDollar(s);
    if end > p && s[end - 1] == '\n' {
      end := end - 1;
      if end > p && s[end - 1] == '\r' {
        end := end - 1;
      }
    }
    SliceOfSlice(s, p, |s|, end - p);
    ghost var c := s[p..end];
    assert c == WithoutLineEnd(a);
    if end >= p + 3 && s[end - 3] == '*' {
      SliceOfSlice(s, p, end, end - 3 - p);
      end := end - 3;
    }
    assert s[p..end] == WithoutChecksum(c);
  }

  /** memchr for the next comma, or end */
  method FindComma(s: string, p: nat, end: nat) returns (q: nat)
    requires p <= end <= |s|
    ensures p <= q <= end && ',' !in s[p..q] && (q < end ==> s[q] == ',')
  {
    q := p;
    while q < end && s[q] != ','
      invariant p <= q <= end && ',' !in s[p..q]
    {
      assert s[p..q + 1] == s[p..q] + [s[q]];
      q := q + 1;
    }
  }

  lemma NonEmptyCons(field: string, rest: seq<string>)
    ensures NonEmpty([field] + rest) == (if field != "" then [field] else []) + NonEmpty(rest)
    ensures NonEmpty([field]) == if field != "" then [field] else []
  {
    assert ([field] + rest)[1..] == rest && [field][1..] == [];
  }

  lemma SplitFirst(s: string, n: nat)
    requires s != "" && n <= |s| && ',' !in s[..n] && (n < |s| ==> s[n] == ',')
    ensures NonEmpty(Fields(s)) ==
            (if n > 0 then [s[..n]] else []) + NonEmpty(Fields(if n < |s| then s[n + 1..] else ""))
  {
    FirstField(s, n);
    if n < |s| {
      NonEmptyCons(s[..n], Fields(s[n + 1..]));
    } else {
      assert s[..n] == s;
      NonEmptyCons(s, []);
      NonEmptyCons("", []);
    }
  }

  lemma RestOfSlice(s: string, p: nat, q: nat, end: nat)
    requires p <= q < end <= |s|
    ensures s[p..end][q - p] == s[q] && s[p..end][q - p + 1..] == s[q + 1..end]
  {
  }

  /** The tokens of a string are its first field, if that is not empty, and those after it. */
  lemma NextToken(s: string, p: nat, q: nat, end: nat, next: nat)
    requires p <= q <= end <= |s| && p < end && ',' !in s[p..q] && (q < end ==> s[q] == ',')
    requires next == if q < end then q + 1 else q
    ensures NonEmpty(Fields(s[p..end])) == (if q > p then [s[p..q]] else []) + NonEmpty(Fields(s[next..end]))
  {
    SliceOfSlice(s, p, end, q - p);
    if q < end {
      RestOfSlice(s, p, q, end);
      SplitFirst(s[p..end], q - p);
    } else {
      SplitFirst(s[p..end], q - p);
      assert s[next..end] == "";
    }
  }

  /** nmea_tokenizer_init: the tokens are the first sixteen fields that are not empty. */
  method Tokenize(s: string) returns (tokens: seq<string>)
    ensures tokens == UpTo(MAX_NMEA_TOKENS, NonEmpty(Fields(Body(s))))
  {
    var p, end := Strip(s);
    tokens := CollectTokens(s, p, end);
  }

  lemma UpToGrows(limit: nat, s: seq<string>, x: string, rest: seq<string>)
    ensures UpTo(limit, s + [x]) == if |UpTo(limit, s)| < limit then UpTo(limit, s) + [x] else UpTo(limit, s)
    ensures s + ([x] + rest) == (s + [x]) + rest && s + ([] + rest) == s + rest
  {
  }

  /** What one pass of the loop does to the tokens found so far, of which at most sixteen are kept. */
  lemma TokenOn(s: string, p: nat, q: nat, end: nat, next: nat, all: seq<string>)
    requires p <= q <= end <= |s| && p < end && ',' !in s[p..q] && (q < end ==> s[q] == ',')
    requires next == if q < end then q + 1 else q
    ensures var found := if q > p then all + [s[p..q]] else all;
      && found + NonEmpty(Fields(s[next..end])) == all + NonEmpty(Fields(s[p..end]))
      && UpTo(MAX_NMEA_TOKENS, found)
         == if q > p && |UpTo(MAX_NMEA_TOKENS, all)| < MAX_NMEA_TOKENS then UpTo(MAX_NMEA_TOKENS, all) + [s[p..q]]
            else UpTo(MAX_NMEA_TOKENS, all)
  {
    NextToken(s, p, q, end, next);
    UpToGrows(MAX_NMEA_TOKENS, all, s[p..q], NonEmpty(Fields(s[next..end])));
  }

  /** One pass of the loop of nmea_tokenizer_init. */
  method CollectToken(s: string, p: nat, end: nat, tokens: seq<string>, ghost all: seq<string>)
    returns (next: nat, more: seq<string>, ghost found: seq<string>)
    requires p < end <= |s| && tokens == UpTo(MAX_NMEA_TOKENS, all)
    ensures p < next <= end && more == UpTo(MAX_NMEA_TOKENS, found)
    ensures found + NonEmpty(Fields(s[next..end])) == all + NonEmpty(Fields(s[p..end]))
  {
    var q := FindComma(s, p, end);
    more, found := tokens, all;
    next := if q < end then q + 1 else q;
    TokenOn(s, p, q, end, next, all);
    if q > p {
      if |tokens| < MAX_NMEA_TOKENS {
        more := tokens + [s[p..q]];
      }
      found := all + [s[p..q]];
    }
  }

  /** The loop of nmea_tokenizer_init. */
  method CollectTokens(s: string, start: nat, end: nat) returns (tokens: seq<string>)
    requires start <= end <= |s|
    ensures tokens == UpTo(MAX_NMEA_TOKENS, NonEmpty(Fields(s[start..end])))
  {
    var p := start;
    tokens := [];
    ghost var all, goal := [], NonEmpty(Fields(s[start..end]));
    while p < end
      invariant 0 <= p <= end
      invariant tokens == UpTo(MAX_NMEA_TOKENS, all)
      invariant all + NonEmpty(Fields(s[p..end])) == goal
    {
      p, tokens, all := CollectToken(s, p, end, tokens, all);
    }
    assert s[p..end] == "";
  }
}
