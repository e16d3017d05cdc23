/** A byte stream as a sequence of commands, however it is cut into reads. */
module Stream {
  import opened Bytes
  import opened Resp

  // ---------- a finished parse does not change when more bytes arrive ----------

  lemma {:induction false} CrlfStable(s: Bytes, t: Bytes, pos: nat)
    requires FindCrlf(s, pos).Some?
    ensures FindCrlf(s + t, pos) == FindCrlf(s, pos)
    decreases |s| - pos
  {
    if !(s[pos] == CR && s[pos + 1] == LF) {
      CrlfStable(s, t, pos + 1);
    }
  }

  lemma BulkStable(s: Bytes, t: Bytes, pos: nat)
    requires ReadBulk(s, pos).Broken? ==> !Incomplete(ReadBulk(s, pos).code)
    ensures ReadBulk(s + t, pos) == ReadBulk(s, pos)
  {
    hide FindCrlf, ParseUnsigned;
    assert (s + t)[pos] == s[pos];
    if s[pos] == DOLLAR {
      CrlfStable(s, t, pos + 1);
      var end := FindCrlf(s, pos + 1).value;
      assert (s + t)[pos + 1..end] == s[pos + 1..end];
      var length := ParseUnsigned(s[pos + 1..end], MAX_U64);
      if length.Some? {
        assert (s + t)[end + 2..end + 2 + length.value] == s[end + 2..end + 2 + length.value];
      }
    }
  }

  predicate Finished(r: Parsed) { r.code.Some? ==> !Incomplete(r.code.value) }

  lemma {:induction false} ArgsStable(s: Bytes, t: Bytes, pos: nat, index: nat, count: nat, name: Bytes, args: seq<Bytes>)
    requires index <= count && pos <= |s| && Finished(ParseArgs(s, pos, index, count, name, args))
    ensures ParseArgs(s + t, pos, index, count, name, args) == ParseArgs(s, pos, index, count, name, args)
    decreases |s| - pos
  {
    hide ReadBulk;
    if index < count {
      BulkStable(s, t, pos);
      match ReadBulk(s, pos) {
        case Broken(_) =>
        case Unended(_) =>
        case Bulk(text, next) =>
          if index == 0 {
            ArgsStable(s, t, next, 1, count, text, args);
          } else {
            ArgsStable(s, t, next, index + 1, count, name, args + [text]);
          }
      }
    }
  }

  /** Any result other than "incomplete" is the result for every longer input. */
  lemma ParseStable(s: Bytes, t: Bytes)
    requires s != [] && Finished(Parse(s))
    ensures Parse(s + t) == Parse(s)
  {
    hide FindCrlf, ParseUnsigned, ParseArgs;
    if s[0] == STAR {
      CrlfStable(s, t, 1);
      var end := FindCrlf(s, 1).value;
      assert (s + t)[1..end] == s[1..end];
      var count := ParseUnsigned(s[1..end], MAX_U64);
      if count.Some? && count.value != 0 {
        ArgsStable(s, t, end + 2, 0, count.value, [], []);
      }
    }
  }

  // ---------- what a client sends ----------

  const CRLF: Bytes := [13, 10]

  function EncodeBulk(part: Bytes): (s: Bytes) { [DOLLAR] + (Digits(|part|) + (CRLF + (part + CRLF))) }

  function EncodeBulks(parts: seq<Bytes>): (s: Bytes)
  {
    if parts == [] then [] else EncodeBulk(parts[0]) + EncodeBulks(parts[1..])
  }

  /** The request of client/C++/src/client.cpp:22-24. */
  function EncodeCommand(parts: seq<Bytes>): (s: Bytes)
    ensures |s| >= 4
  {
    [STAR] + (Digits(|parts|) + (CRLF + EncodeBulks(parts)))
  }

  lemma CutCrlf(s: Bytes, at: nat, rest: Bytes)
    requires at <= |s| && s[at..] == CRLF + rest
    ensures at + 2 <= |s| && s[at] == CR && s[at + 1] == LF && s[at + 2..] == rest
  {
    Cut(s, at, CRLF, rest);
    assert s[at..][0] == s[at] && s[at..][1] == s[at + 1];
  }

  /** A line of digits with its CRLF, inside any surroundings. */
  lemma ReadDigits(s: Bytes, at: nat, n: nat, rest: Bytes)
    requires n <= MAX_U64 && at <= |s| && s[at..] == Digits(n) + (CRLF + rest)
    ensures var end := at + |Digits(n)|;
            && FindCrlf(s, at) == Some(end) && ParseUnsigned(s[at..end], MAX_U64) == Some(n)
            && end + 2 <= |s| && s[end + 2..] == rest
  {
    hide FindCrlf, Digits, ParseUnsigned;
    var end := at + |Digits(n)|;
    Cut(s, at, Digits(n), CRLF + rest);
    CutCrlf(s, end, rest);
    ParseOfDigits(n, MAX_U64);
    CrlfAfterDigits(s, at, end);
    CrlfHere(s, end);
  }

  lemma EncodeBulkThen(part: Bytes, rest: Bytes)
    ensures EncodeBulk(part) + rest == [DOLLAR] + (Digits(|part|) + (CRLF + (part + (CRLF + rest))))
    ensures |EncodeBulk(part)| == |Digits(|part|)| + |part| + 5
  {
    hide Digits;
    var digits := Digits(|part|);
    Assoc(part, CRLF, rest);
    Assoc(CRLF, part + CRLF, rest);
    Assoc(digits, CRLF + (part + CRLF), rest);
    Assoc([DOLLAR], digits + (CRLF + (part + CRLF)), rest);
  }

  lemma ReadEncodedBulk(s: Bytes, at: nat, part: Bytes, rest: Bytes)
    requires |part| <= MAX_U64 && at <= |s| && s[at..] == EncodeBulk(part) + rest
    ensures ReadBulk(s, at) == Bulk(part, at + |EncodeBulk(part)|)
    ensures at + |EncodeBulk(part)| <= |s| && s[at + |EncodeBulk(part)|..] == rest
  {
    hide FindCrlf, Digits, ParseUnsigned, EncodeBulk;
    EncodeBulkThen(part, rest);
    EncodedBulkPieces(s, at, part, rest);
  }

  lemma EncodedBulkPieces(s: Bytes, at: nat, part: Bytes, rest: Bytes)
    requires |part| <= MAX_U64 && at <= |s|
    requires s[at..] == [DOLLAR] + (Digits(|part|) + (CRLF + (part + (CRLF + rest))))
    ensures var end := at + 1 + |Digits(|part|)|;
            var to := end + 2 + |part|;
            && to + 2 <= |s| && s[at] == DOLLAR && FindCrlf(s, at + 1) == Some(end)
            && ParseUnsigned(s[at + 1..end], MAX_U64) == Some(|part|)
            && s[end + 2..to] == part && s[to] == CR && s[to + 1] == LF && s[to + 2..] == rest
  {
    hide FindCrlf, Digits, ParseUnsigned;
    var tail := part + (CRLF + rest);
    CutFirst(s, at, DOLLAR, Digits(|part|) + (CRLF + tail));
    ReadDigits(s, at + 1, |part|, tail);
    var end := at + 1 + |Digits(|part|)|;
    Cut(s, end + 2, part, CRLF + rest);
    CutCrlf(s, end + 2 + |part|, rest);
  }

  lemma CutFirst(s: Bytes, at: nat, b: Byte, rest: Bytes)
    requires at <= |s| && s[at..] == [b] + rest
    ensures at < |s| && s[at] == b && s[at + 1..] == rest
  {
    Cut(s, at, [b], rest);
    assert s[at..][0] == s[at];
  }

  lemma {:induction false} ParseEncodedBulks(s: Bytes, at: nat, parts: seq<Bytes>, rest: Bytes, index: nat, count: nat,
                                             name: Bytes, args: seq<Bytes>)
    requires index + |parts| == count && forall i :: 0 <= i < |parts| ==> |parts[i]| <= MAX_U64
    requires at <= |s| && s[at..] == EncodeBulks(parts) + rest
    ensures ParseArgs(s, at, index, count, name, args)
         == (if index > 0 then Parsed(None, name, args + parts, at + |EncodeBulks(parts)|)
             else if parts == [] then Parsed(None, name, args, at)
             else Parsed(None, parts[0], args + parts[1..], at + |EncodeBulks(parts)|))
    decreases |parts|
  {
    hide ReadBulk, EncodeBulk;
    if parts == [] {
      assert args + parts == args;
    } else {
      var first, tail := EncodeBulk(parts[0]), EncodeBulks(parts[1..]);
      assert s[at..] == first + (tail + rest);
      ReadEncodedBulk(s, at, parts[0], tail + rest);
      if index == 0 {
        ParseEncodedBulks(s, at + |first|, parts[1..], rest, 1, count, parts[0], args);
      } else {
        ParseEncodedBulks(s, at + |first|, parts[1..], rest, index + 1, count, name, args + [parts[0]]);
        assert args + [parts[0]] + parts[1..] == args + parts;
      }
    }
  }

  lemma EncodeCommandThen(parts: seq<Bytes>, rest: Bytes)
    ensures EncodeCommand(parts) + rest == [STAR] + (Digits(|parts|) + (CRLF + (EncodeBulks(parts) + rest)))
    ensures |EncodeCommand(parts)| == |Digits(|parts|)| + |EncodeBulks(parts)| + 3
  {
    hide Digits, EncodeBulks;
    var digits := Digits(|parts|);
    Assoc(CRLF, EncodeBulks(parts), rest);
    Assoc(digits, CRLF + EncodeBulks(parts), rest);
    Assoc([STAR], digits + (CRLF + EncodeBulks(parts)), rest);
  }

  /** The client's encoding of a command, followed by anything, parses to exactly that command. */
  lemma ParseEncoded(parts: seq<Bytes>, rest: Bytes)
    requires parts != [] && |parts| <= MAX_U64 && forall i :: 0 <= i < |parts| ==> |parts[i]| <= MAX_U64
    ensures Parse(EncodeCommand(parts) + rest) == Parsed(None, parts[0], parts[1..], |EncodeCommand(parts)|)
  {
    hide FindCrlf, Digits, ParseUnsigned, ParseArgs, EncodeBulks, EncodeCommand;
    var digits, bulks := Digits(|parts|), EncodeBulks(parts) + rest;
    var s := EncodeCommand(parts) + rest;
    EncodeCommandThen(parts, rest);
    assert s[0..] == s;
    CutFirst(s, 0, STAR, digits + (CRLF + bulks));
    ReadDigits(s, 1, |parts|, bulks);
    ParseEncodedBulks(s, 1 + |digits| + 2, parts, rest, 0, |parts|, [], []);
    assert [] + parts[1..] == parts[1..];
  }

  /** Every proper prefix of an encoded command is "incomplete", never an error and never a command. */
  lemma PrefixIncomplete(parts: seq<Bytes>, n: nat)
    requires parts != [] && |parts| <= MAX_U64 && forall i :: 0 <= i < |parts| ==> |parts[i]| <= MAX_U64
    requires 0 < n < |EncodeCommand(parts)|
    ensures Parse(EncodeCommand(parts)[..n]).code.Some? && Incomplete(Parse(EncodeCommand(parts)[..n]).code.value)
  {
    hide Parse, EncodeCommand;
    var s := EncodeCommand(parts);
    ParseEncoded(parts, []);
    assert s + [] == s;
    assert s == s[..n] + s[n..];
    if Finished(Parse(s[..n])) {
      ParseStable(s[..n], s[n..]);
    }
  }

  // ---------- streams ----------

  datatype Cmd = Cmd(name: Bytes, args: seq<Bytes>)

  /** The commands in front, what is left after them, and the protocol error that stops it there, if any. */
  datatype Stream = Stream(commands: seq<Cmd>, rest: Bytes, error: Option<Code>)

  function Onto(commands: seq<Cmd>, s: Stream): (r: Stream) { s.(commands := commands + s.commands) }

  function Split(s: Bytes): (r: Stream)
    decreases |s|
  {
    if s == [] then Stream([], [], None)
    else
      var p := Parse(s);
      if p.code.None? then Onto([Cmd(p.name, p.args)], Split(s[p.consumed..]))
      else Stream([], s, if Incomplete(p.code.value) then None else p.code)
  }

  lemma OntoOnto(a: seq<Cmd>, b: seq<Cmd>, s: Stream)
    ensures Onto(a, Onto(b, s)) == Onto(a + b, s)
    ensures Onto([], s) == s
  {
    assert a + (b + s.commands) == a + b + s.commands;
    assert [] + s.commands == s.commands;
  }

  /** Splitting a longer stream continues where the shorter one stopped; after an error nothing more is read. */
  lemma {:induction false} SplitAppend(s: Bytes, t: Bytes)
    ensures Split(s).error.None? ==> Split(s + t) == Onto(Split(s).commands, Split(Split(s).rest + t))
    ensures Split(s).error.Some? ==> Split(s + t).commands == Split(s).commands && Split(s + t).error == Split(s).error
    decreases |s|
  {
    hide Parse;
    if s == [] {
      assert s + t == t && [] + t == t;
      OntoOnto([], [], Split(t));
    } else {
      var p := Parse(s);
      if Finished(p) {
        ParseStable(s, t);
        if p.code.None? {
          var tail := s[p.consumed..];
          assert (s + t)[p.consumed..] == tail + t;
          SplitAppend(tail, t);
          OntoOnto([Cmd(p.name, p.args)], Split(tail).commands, Split(Split(tail).rest + t));
        }
      } else {
        OntoOnto([], [], Split(s + t));
      }
    }
  }

  /** Whether the buffer begins with a complete command or a protocol error: something to do without reading. */
  predicate Ready(s: Bytes) { s != [] && Finished(Parse(s)) }

  lemma NotReady(s: Bytes)
    ensures !Ready(s) ==> Split(s) == Stream([], s, None)
  {
    hide Parse;
  }
}
