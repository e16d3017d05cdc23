/**
  * The request grammar on the bytes, apart from any parser: which byte strings start with a command, which
  * may still become one, and what is wrong with every other. The parsers are shown to decide exactly that.
  * Source: src/resp.cpp:667-722, src/server.cpp:18-22 and 209-230.
  */
module Grammar {
  import opened Bytes
  import opened Resp
  import opened Stream

  // ---------- the grammar ----------

  /** A line has ended at its first CRLF. */
  ghost predicate NoCrlf(s: Bytes) { forall i :: 0 <= i < |s| - 1 ==> s[i] != 13 || s[i + 1] != 10 }

  /** A string of digits, leading zeros allowed, for a number of 64 bits. */
  predicate Numeral(d: Bytes, n: nat) { d != [] && AllDigits(d) && DigitsValue(d) == n && n <= 0xFFFF_FFFF_FFFF_FFFF }

  ghost predicate IsNumeral(d: Bytes) { exists n: nat :: Numeral(d, n) }

  /** `$`, a length, CRLF, the text, CRLF. */
  function BulkOf(d: Bytes, part: Bytes): (s: Bytes) { [36] + (d + ([13, 10] + (part + [13, 10]))) }

  function Bulks(ds: seq<Bytes>, parts: seq<Bytes>): (s: Bytes)
    requires |ds| == |parts|
  {
    if parts == [] then [] else BulkOf(ds[0], parts[0]) + Bulks(ds[1..], parts[1..])
  }

  ghost predicate Lengths(ds: seq<Bytes>, parts: seq<Bytes>)
  {
    |ds| == |parts| && forall i :: 0 <= i < |parts| ==> Numeral(ds[i], |parts[i]|)
  }

  /** The bulk strings `parts`, with lengths written as `ds`, and then `tail`. */
  ghost predicate Listed(s: Bytes, ds: seq<Bytes>, parts: seq<Bytes>, tail: Bytes)
  {
    Lengths(ds, parts) && s == Bulks(ds, parts) + tail
  }

  /** `*`, a count, CRLF, and bulk strings as far as they go. */
  ghost predicate Begins(s: Bytes, n: nat, ds: seq<Bytes>, parts: seq<Bytes>, tail: Bytes)
  {
    exists d: Bytes, after: Bytes :: s == [42] + (d + ([13, 10] + after)) && Numeral(d, n) && Listed(after, ds, parts, tail)
  }

  /** A command: as many parts as the count says, at least one. */
  ghost predicate Frame(s: Bytes, parts: seq<Bytes>, tail: Bytes)
  {
    parts != [] && exists ds :: Begins(s, |parts|, ds, parts, tail)
  }

  /** What is wrong with a bulk string that was to begin here. */
  ghost predicate Wrong(tail: Bytes, code: Code)
  {
    match code
    case MissingPrefix => tail == []
    case ExpectedBulk => tail != [] && tail[0] != 36
    case MissingCrlf => tail != [] && tail[0] == 36 && NoCrlf(tail[1..])
    case BadBulkLength =>
      exists line: Bytes, rest: Bytes :: tail == [36] + (line + ([13, 10] + rest)) && NoCrlf(line) && !IsNumeral(line)
    case IncompleteData =>
      exists d: Bytes, data: Bytes, n: nat :: tail == [36] + (d + ([13, 10] + data)) && Numeral(d, n) && |data| < n + 2
    case MissingTerminator =>
      exists d: Bytes, text: Bytes, end: Bytes :: tail == [36] + (d + ([13, 10] + (text + end))) && Numeral(d, |text|)
                             && |end| >= 2 && end[..2] != [13, 10]
    case _ => false
  }

  /** The bulk strings are good up to one that is not. */
  ghost predicate Stops(s: Bytes, code: Code)
  {
    exists n: nat, ds, parts, tail :: Begins(s, n, ds, parts, tail) && |parts| < n && Wrong(tail, code)
  }

  /** What is wrong with a command that was to begin here. */
  ghost predicate Says(s: Bytes, code: Code)
  {
    match code
    case EmptyInput => s == []
    case ExpectedArray => s != [] && s[0] != 42
    case BadArrayLength =>
      exists line: Bytes, rest: Bytes :: s == [42] + (line + ([13, 10] + rest)) && NoCrlf(line) && !IsNumeral(line)
    case EmptyArray => exists d: Bytes, rest: Bytes :: s == [42] + (d + ([13, 10] + rest)) && Numeral(d, 0)
    case MissingCrlf => (s != [] && s[0] == 42 && NoCrlf(s[1..])) || Stops(s, code)
    case _ => Stops(s, code)
  }

  /** A bulk string that has begun well and has not ended. */
  ghost predicate Short(tail: Bytes)
  {
    || tail == []
    || (tail[0] == 36
        && (|| NoCrlf(tail[1..])
            || exists d: Bytes, data: Bytes, n: nat ::
                 tail == [36] + (d + ([13, 10] + data)) && Numeral(d, n) && |data| < n + 2))
  }

  /** Bytes that are no command yet, but every line and every terminator that is complete is good. */
  ghost predicate Partial(s: Bytes)
  {
    && s != [] && s[0] == 42
    && (|| NoCrlf(s[1..])
        || exists n: nat, ds, parts, tail :: Begins(s, n, ds, parts, tail) && |parts| < n && Short(tail))
  }

  /** Commands one after another, and then `rest`. */
  ghost predicate Commands(s: Bytes, commands: seq<Cmd>, rest: Bytes)
    decreases |commands|
  {
    if commands == [] then s == rest
    else
      exists parts, tail ::
        Frame(s, parts, tail) && commands[0] == Cmd(parts[0], parts[1..]) && Commands(tail, commands[1..], rest)
  }

  // ---------- lines ----------

  lemma {:induction false} CrlfNotAfter(s: Bytes, pos: nat, i: nat)
    requires pos <= i && i + 2 <= |s| && s[i] == 13 && s[i + 1] == 10
    ensures FindCrlf(s, pos).Some? && FindCrlf(s, pos).value <= i
    decreases |s| - pos
  {
    if !(s[pos] == CR && s[pos + 1] == LF) {
      CrlfNotAfter(s, pos + 1, i);
    }
  }

  lemma CrlfFound(s: Bytes, pos: nat)
    requires pos <= |s|
    ensures FindCrlf(s, pos).None? ==> NoCrlf(s[pos..])
    ensures FindCrlf(s, pos).Some? ==>
              var end := FindCrlf(s, pos).value;
              NoCrlf(s[pos..end]) && s[pos..] == s[pos..end] + ([13, 10] + s[end + 2..])
  {
    hide FindCrlf;
    var found := FindCrlf(s, pos);
    var end := if found.Some? then found.value else |s|;
    var line := s[pos..end];
    forall i | 0 <= i < |line| - 1
      ensures line[i] != 13 || line[i + 1] != 10
    {
      if line[i] == 13 && line[i + 1] == 10 {
        CrlfNotAfter(s, pos, pos + i);
      }
    }
    assert s[pos..|s|] == s[pos..];
    if found.Some? {
      assert s[end..] == [s[end], s[end + 1]] + s[end + 2..];
      assert s[pos..] == s[pos..end] + s[end..];
    }
  }

  lemma {:induction false} CrlfIsFirst(s: Bytes, pos: nat, line: Bytes, rest: Bytes)
    requires pos <= |s| && s[pos..] == line + ([13, 10] + rest) && NoCrlf(line)
    ensures FindCrlf(s, pos) == Some(pos + |line|) && s[pos..pos + |line|] == line && s[pos + |line| + 2..] == rest
    decreases |line|
  {
    var t := s[pos..];
    assert |t| == |line| + 2 + |rest|;
    assert t[|line|] == 13 && t[|line| + 1] == 10 && t[|line| + 2..] == rest && t[..|line|] == line;
    assert t[|line| + 2..] == s[pos + |line| + 2..];
    if line != [] {
      assert s[pos] == t[0] == line[0] && s[pos + 1] == t[1];
      assert s[pos + 1..] == t[1..] == line[1..] + ([13, 10] + rest);
      CrlfIsFirst(s, pos + 1, line[1..], rest);
    }
  }

  lemma {:induction false} NoCrlfFound(s: Bytes, pos: nat)
    requires pos <= |s| && NoCrlf(s[pos..])
    ensures FindCrlf(s, pos) == None
    decreases |s| - pos
  {
    if pos + 2 <= |s| {
      assert s[pos..][0] == s[pos] && s[pos..][1] == s[pos + 1];
      assert s[pos..][1..] == s[pos + 1..];
      NoCrlfFound(s, pos + 1);
    }
  }

  lemma NumeralParses(d: Bytes)
    ensures ParseUnsigned(d, MAX_U64).None? <==> !IsNumeral(d)
    ensures forall n: nat :: Numeral(d, n) <==> ParseUnsigned(d, MAX_U64) == Some(n)
  {
    if ParseUnsigned(d, MAX_U64).Some? {
      assert Numeral(d, DigitsValue(d));
    }
  }

  lemma NumeralIsLine(d: Bytes)
    requires AllDigits(d)
    ensures NoCrlf(d)
  {
  }

  // ---------- one bulk string ----------

  lemma TailParts(s: Bytes, pos: nat, b: Byte, line: Bytes, rest: Bytes)
    requires pos <= |s| && s[pos..] == [b] + (line + ([13, 10] + rest)) && NoCrlf(line)
    ensures var end := pos + 1 + |line|;
            && pos < |s| && s[pos] == b && FindCrlf(s, pos + 1) == Some(end)
            && end + 2 <= |s| && s[pos + 1..end] == line && s[end + 2..] == rest
  {
    hide FindCrlf, NoCrlf;
    assert s[pos..][0] == b && s[pos..][1..] == s[pos + 1..];
    CrlfIsFirst(s, pos + 1, line, rest);
  }

  lemma TailLine(s: Bytes, pos: nat)
    requires pos < |s| && FindCrlf(s, pos + 1).Some?
    ensures var end := FindCrlf(s, pos + 1).value;
            s[pos..] == [s[pos]] + (s[pos + 1..end] + ([13, 10] + s[end + 2..])) && NoCrlf(s[pos + 1..end])
  {
    hide FindCrlf, NoCrlf;
    CrlfFound(s, pos + 1);
    assert s[pos..] == [s[pos]] + s[pos + 1..];
  }

  lemma EarlyWrong(tail: Bytes)
    ensures tail == [] ==> Wrong(tail, MissingPrefix)
    ensures tail != [] && tail[0] != 36 ==> Wrong(tail, ExpectedBulk)
    ensures tail != [] && tail[0] == 36 && NoCrlf(tail[1..]) ==> Wrong(tail, MissingCrlf)
  {
  }

  lemma BadLength(tail: Bytes, line: Bytes, rest: Bytes)
    requires tail == [36] + (line + ([13, 10] + rest)) && NoCrlf(line) && !IsNumeral(line)
    ensures Wrong(tail, BadBulkLength)
  {
  }

  /** The text behind a good length. */
  function DataAt(s: Bytes, at: nat, length: nat): (b: Bulk)
    requires at <= |s|
  {
    if |s| - at < length + 2 then Broken(IncompleteData)
    else if s[at + length] == CR && s[at + length + 1] == LF then Bulk(s[at..at + length], at + length + 2)
    else Unended(s[at..at + length])
  }

  lemma DataIsRead(s: Bytes, pos: nat, end: nat)
    requires pos < |s| && s[pos] == DOLLAR && FindCrlf(s, pos + 1) == Some(end)
    ensures var length := ParseUnsigned(s[pos + 1..end], MAX_U64);
            ReadBulk(s, pos) == if length.None? then Broken(BadBulkLength) else DataAt(s, end + 2, length.value)
  {
    hide FindCrlf, ParseUnsigned;
  }

  lemma NoLineIsRead(s: Bytes, pos: nat)
    requires pos >= |s| || s[pos] != DOLLAR || FindCrlf(s, pos + 1).None?
    ensures ReadBulk(s, pos) ==
              Broken(if pos >= |s| then MissingPrefix else if s[pos] != DOLLAR then ExpectedBulk else MissingCrlf)
  {
    hide FindCrlf, ParseUnsigned;
  }

  /** What the parser makes of a bulk string is what is there. */
  lemma BulkRead(s: Bytes, pos: nat) returns (d: Bytes)
    requires pos <= |s|
    ensures BulkSays(ReadBulk(s, pos), s, s[pos..], d)
  {
    hide FindCrlf, NoCrlf, ParseUnsigned, Numeral, IsNumeral, BulkOf, Wrong, ReadBulk, DataAt;
    if pos < |s| && s[pos] == DOLLAR && FindCrlf(s, pos + 1).Some? {
      var end := FindCrlf(s, pos + 1).value;
      d := s[pos + 1..end];
      DataIsRead(s, pos, end);
      LineRead(s, pos, end);
    } else {
      d := [];
      NoLineIsRead(s, pos);
      EarlyWrong(s[pos..]);
      if pos < |s| {
        CrlfFound(s, pos + 1);
        assert s[pos..][1..] == s[pos + 1..];
      }
    }
  }

  lemma LineRead(s: Bytes, pos: nat, end: nat)
    requires pos < |s| && s[pos] == DOLLAR && FindCrlf(s, pos + 1) == Some(end)
    ensures var d := s[pos + 1..end];
            var length := ParseUnsigned(d, MAX_U64);
            BulkSays(if length.None? then Broken(BadBulkLength) else DataAt(s, end + 2, length.value), s, s[pos..], d)
  {
    hide FindCrlf, NoCrlf, ParseUnsigned, Numeral, IsNumeral, BulkOf, Wrong, DataAt;
    var d := s[pos + 1..end];
    TailLine(s, pos);
    NumeralParses(d);
    if ParseUnsigned(d, MAX_U64).None? {
      BadLength(s[pos..], d, s[end + 2..]);
    } else {
      BulkData(s, s[pos..], end + 2, d, ParseUnsigned(d, MAX_U64).value);
    }
  }

  ghost predicate BulkSays(b: Bulk, s: Bytes, tail: Bytes, d: Bytes)
  {
    match b
    case Broken(code) => Wrong(tail, code)
    case Unended(_) => Wrong(tail, MissingTerminator)
    case Bulk(text, next) => next <= |s| && Numeral(d, |text|) && tail == BulkOf(d, text) + s[next..]
  }

  lemma BulkData(s: Bytes, tail: Bytes, at: nat, d: Bytes, length: nat)
    requires at <= |s| && tail == [36] + (d + ([13, 10] + s[at..])) && Numeral(d, length)
    ensures BulkSays(DataAt(s, at, length), s, tail, d)
  {
    hide Numeral, BulkOf, Wrong;
    var to := at + length;
    if |s| < to + 2 {
      TooShort(tail, d, s[at..], length);
    } else {
      var text, end := s[at..to], s[to..];
      SliceInTwo(s, at, to);
      if s[to] == CR && s[to + 1] == LF {
        assert end == [13, 10] + s[to + 2..];
        BulkThen(d, text, s[to + 2..]);
      } else {
        NotEnded(tail, d, text, end);
      }
    }
  }

  lemma SliceInTwo(s: Bytes, at: nat, to: nat)
    requires at <= to <= |s|
    ensures s[at..] == s[at..to] + s[to..]
  {
  }

  lemma TooShort(tail: Bytes, d: Bytes, data: Bytes, n: nat)
    requires tail == [36] + (d + ([13, 10] + data)) && Numeral(d, n) && |data| < n + 2
    ensures Wrong(tail, IncompleteData)
  {
  }

  lemma NotEnded(tail: Bytes, d: Bytes, text: Bytes, end: Bytes)
    requires tail == [36] + (d + ([13, 10] + (text + end))) && Numeral(d, |text|)
    requires |end| >= 2 && (end[0] != 13 || end[1] != 10)
    ensures Wrong(tail, MissingTerminator)
  {
    hide Numeral;
    assert end[..2][0] == end[0] && end[..2][1] == end[1];
  }

  lemma BulkThen(d: Bytes, part: Bytes, rest: Bytes)
    ensures BulkOf(d, part) + rest == [36] + (d + ([13, 10] + (part + ([13, 10] + rest))))
    ensures |BulkOf(d, part)| == |d| + |part| + 5
  {
    Assoc(part, [13, 10], rest);
    Assoc([13, 10], part + [13, 10], rest);
    Assoc(d, [13, 10] + (part + [13, 10]), rest);
    Assoc([36], d + ([13, 10] + (part + [13, 10])), rest);
  }

  /** And the other way round. */
  lemma BulkIsRead(s: Bytes, pos: nat, d: Bytes, part: Bytes, rest: Bytes)
    requires pos <= |s| && s[pos..] == BulkOf(d, part) + rest && Numeral(d, |part|)
    ensures ReadBulk(s, pos) == Bulk(part, pos + |BulkOf(d, part)|)
    ensures pos + |BulkOf(d, part)| <= |s| && s[pos + |BulkOf(d, part)|..] == rest
  {
    hide FindCrlf, NoCrlf, ParseUnsigned, BulkOf;
    BulkThen(d, part, rest);
    NumeralIsLine(d);
    NumeralParses(d);
    TailParts(s, pos, 36, d, part + ([13, 10] + rest));
    var at := pos + 1 + |d| + 2;
    var to := at + |part|;
    assert s[at..][..|part|] == part && s[at..][|part|..] == [13, 10] + rest;
    assert s[at..][|part|] == 13 && s[at..][|part| + 1] == 10;
    assert s[to..] == s[at..][|part|..];
    assert s[at..to] == part && s[to] == 13 && s[to + 1] == 10 && s[to + 2..] == s[to..][2..] == rest;
  }

  lemma WrongIsRead(s: Bytes, pos: nat, code: Code)
    requires pos <= |s| && Wrong(s[pos..], code)
    ensures if code == MissingTerminator then ReadBulk(s, pos).Unended? else ReadBulk(s, pos) == Broken(code)
  {
    hide FindCrlf, NoCrlf, ParseUnsigned, Numeral, IsNumeral;
    var tail := s[pos..];
    match code {
      case MissingPrefix =>
      case ExpectedBulk =>
      case MissingCrlf =>
        assert tail[1..] == s[pos + 1..];
        NoCrlfFound(s, pos + 1);
      case BadBulkLength =>
        var line: Bytes, rest: Bytes :| tail == [36] + (line + ([13, 10] + rest)) && NoCrlf(line) && !IsNumeral(line);
        TailParts(s, pos, 36, line, rest);
        NumeralParses(line);
      case IncompleteData =>
        var d: Bytes, data: Bytes, n: nat :| tail == [36] + (d + ([13, 10] + data)) && Numeral(d, n) && |data| < n + 2;
        LengthIsRead(s, pos, d, n, data);
      case MissingTerminator =>
        UnendedIsRead(s, pos);
      case _ =>
    }
  }

  lemma UnendedIsRead(s: Bytes, pos: nat)
    requires pos <= |s| && Wrong(s[pos..], MissingTerminator)
    ensures ReadBulk(s, pos).Unended?
  {
    hide FindCrlf, ParseUnsigned, Numeral;
    var d: Bytes, text: Bytes, end: Bytes :| s[pos..] == [36] + (d + ([13, 10] + (text + end))) && Numeral(d, |text|)
                                            && |end| >= 2 && end[..2] != [13, 10];
    LengthIsRead(s, pos, d, |text|, text + end);
    var at := pos + 1 + |d| + 2;
    assert s[at..][|text|] == end[0] && s[at..][|text| + 1] == end[1];
    assert end[..2] == [end[0], end[1]];
  }

  lemma LengthIsRead(s: Bytes, pos: nat, d: Bytes, n: nat, data: Bytes)
    requires pos <= |s| && s[pos..] == [36] + (d + ([13, 10] + data)) && Numeral(d, n)
    ensures var end := pos + 1 + |d|;
            && pos < |s| && s[pos] == 36 && FindCrlf(s, pos + 1) == Some(end) && end + 2 <= |s|
            && ParseUnsigned(s[pos + 1..end], MAX_U64) == Some(n) && s[end + 2..] == data
  {
    hide FindCrlf, NoCrlf, ParseUnsigned;
    NumeralIsLine(d);
    NumeralParses(d);
    TailParts(s, pos, 36, d, data);
  }

  // ---------- the bulk strings of a command ----------

  lemma BulksMore(d: Bytes, part: Bytes, ds: seq<Bytes>, parts: seq<Bytes>, tail: Bytes, after: Bytes)
    requires Listed(after, ds, parts, tail) && Numeral(d, |part|)
    ensures Listed(BulkOf(d, part) + after, [d] + ds, [part] + parts, tail)
  {
    hide BulkOf, Numeral;
    assert ([d] + ds)[1..] == ds && ([part] + parts)[1..] == parts;
    Assoc(BulkOf(d, part), Bulks(ds, parts), tail);
  }

  /** The name and the arguments after `parts` more of them. */
  function NameAfter(index: nat, name: Bytes, parts: seq<Bytes>): (r: Bytes)
  {
    if index == 0 && parts != [] then parts[0] else name
  }

  function ArgsAfter(index: nat, args: seq<Bytes>, parts: seq<Bytes>): (r: seq<Bytes>)
  {
    if index == 0 && parts != [] then args + parts[1..] else args + parts
  }

  lemma AfterOne(index: nat, name: Bytes, args: seq<Bytes>, part: Bytes, parts: seq<Bytes>)
    ensures var name', args' := if index == 0 then part else name, if index == 0 then args else args + [part];
            && NameAfter(index, name, [part] + parts) == NameAfter(index + 1, name', parts)
            && ArgsAfter(index, args, [part] + parts) == ArgsAfter(index + 1, args', parts)
  {
    assert ([part] + parts)[1..] == parts;
    assert args + ([part] + parts) == args + [part] + parts;
  }

  /** The parser goes over good bulk strings and stops at the first that is wrong, or when it has enough. */
  lemma {:induction false} ArgsRead(s: Bytes, pos: nat, index: nat, count: nat, name: Bytes, args: seq<Bytes>)
    returns (ds: seq<Bytes>, parts: seq<Bytes>, tail: Bytes)
    requires index <= count && pos <= |s|
    ensures Listed(s[pos..], ds, parts, tail) && index + |parts| <= count
    ensures var r := ParseArgs(s, pos, index, count, name, args);
            if r.code.None?
            then index + |parts| == count
            else index + |parts| < count && Wrong(tail, r.code.value)
    decreases |s| - pos
  {
    hide ReadBulk, Wrong, BulkOf, Numeral;
    if index == count {
      ds, parts, tail := [], [], s[pos..];
      assert [] + tail == tail;
    } else {
      var d := BulkRead(s, pos);
      match ReadBulk(s, pos) {
        case Broken(code) =>
          ds, parts, tail := [], [], s[pos..];
          assert [] + tail == tail;
        case Unended(text) =>
          ds, parts, tail := [], [], s[pos..];
          assert [] + tail == tail;
        case Bulk(text, next) =>
          if index == 0 {
            ds, parts, tail := ArgsRead(s, next, 1, count, text, args);
          } else {
            ds, parts, tail := ArgsRead(s, next, index + 1, count, name, args + [text]);
          }
          BulksMore(d, text, ds, parts, tail, s[next..]);
          ds, parts := [d] + ds, [text] + parts;
      }
    }
  }

  /** And the other way round: good bulk strings are gone over. */
  lemma {:induction false} ArgsAreRead(s: Bytes, pos: nat, index: nat, count: nat, name: Bytes, args: seq<Bytes>,
                                       ds: seq<Bytes>, parts: seq<Bytes>, tail: Bytes)
    requires index + |parts| <= count && pos <= |s| && Listed(s[pos..], ds, parts, tail)
    ensures |tail| <= |s| && s[|s| - |tail|..] == tail && pos <= |s| - |tail|
    ensures ParseArgs(s, pos, index, count, name, args) ==
              ParseArgs(s, |s| - |tail|, index + |parts|, count, NameAfter(index, name, parts), ArgsAfter(index, args, parts))
    decreases |parts|
  {
    hide ReadBulk, BulkOf, Numeral;
    if parts == [] {
      assert [] + tail == tail && args + parts == args;
    } else {
      var d, part, rest := ds[0], parts[0], Bulks(ds[1..], parts[1..]) + tail;
      Assoc(BulkOf(d, part), Bulks(ds[1..], parts[1..]), tail);
      BulkIsRead(s, pos, d, part, rest);
      var next := pos + |BulkOf(d, part)|;
      var name', args' := if index == 0 then part else name, if index == 0 then args else args + [part];
      ArgsAreRead(s, next, index + 1, count, name', args', ds[1..], parts[1..], tail);
      AfterOne(index, name, args, part, parts[1..]);
      assert [part] + parts[1..] == parts;
    }
  }

  // ---------- a command ----------

  lemma CountIsRead(s: Bytes, d: Bytes, n: nat, after: Bytes)
    requires s == [42] + (d + ([13, 10] + after)) && Numeral(d, n)
    ensures FindCrlf(s, 1) == Some(1 + |d|) && ParseUnsigned(s[1..1 + |d|], MAX_U64) == Some(n)
    ensures 3 + |d| <= |s| && s[3 + |d|..] == after && s[0] == 42
  {
    hide FindCrlf, NoCrlf, ParseUnsigned;
    NumeralIsLine(d);
    NumeralParses(d);
    assert s[0..] == s;
    TailParts(s, 0, 42, d, after);
  }

  /** After the count and some good bulk strings the parser is at what follows them. */
  lemma BeginningIsRead(s: Bytes, n: nat, ds: seq<Bytes>, parts: seq<Bytes>, tail: Bytes)
    requires Begins(s, n, ds, parts, tail) && 0 < n && |parts| <= n
    ensures |tail| <= |s| && s[|s| - |tail|..] == tail
    ensures Parse(s) == ParseArgs(s, |s| - |tail|, |parts|, n, NameAfter(0, [], parts), ArgsAfter(0, [], parts))
  {
    hide FindCrlf, ParseUnsigned, Numeral, Listed, ParseArgs, NameAfter, ArgsAfter;
    var d: Bytes, after: Bytes :| s == [42] + (d + ([13, 10] + after)) && Numeral(d, n) && Listed(after, ds, parts, tail);
    CountIsRead(s, d, n, after);
    ArgsAreRead(s, 3 + |d|, 0, n, [], [], ds, parts, tail);
  }

  /** A command is read whole, whatever follows it; so bytes start with at most one command. */
  lemma FrameIsRead(s: Bytes, parts: seq<Bytes>, tail: Bytes)
    requires Frame(s, parts, tail)
    ensures |tail| < |s| && s[|s| - |tail|..] == tail && Parse(s) == Parsed(None, parts[0], parts[1..], |s| - |tail|)
  {
    hide Begins;
    var ds :| Begins(s, |parts|, ds, parts, tail);
    BeginningIsRead(s, |parts|, ds, parts, tail);
    assert [] + parts[1..] == parts[1..];
  }

  /** And whatever the parser reads is a command. */
  lemma ReadIsFrame(s: Bytes) returns (parts: seq<Bytes>, tail: Bytes)
    requires Parse(s).code.None?
    ensures Frame(s, parts, tail)
  {
    hide FindCrlf, NoCrlf, ParseUnsigned, Numeral, IsNumeral, Listed, ParseArgs;
    var ds;
    var end := FindCrlf(s, 1).value;
    var d := s[1..end];
    assert s[0..] == s;
    TailLine(s, 0);
    NumeralParses(d);
    var n := ParseUnsigned(d, MAX_U64).value;
    ds, parts, tail := ArgsRead(s, end + 2, 0, n, [], []);
    assert Begins(s, n, ds, parts, tail);
  }

  /** The parser succeeds exactly on the bytes that start with a command. */
  lemma SucceedsExactly(s: Bytes)
    ensures Parse(s).code.None? <==> exists parts, tail :: Frame(s, parts, tail)
  {
    hide Frame, Parse;
    if Parse(s).code.None? {
      var parts, tail := ReadIsFrame(s);
    }
    if parts, tail :| Frame(s, parts, tail) {
      FrameIsRead(s, parts, tail);
    }
  }

  /** After a good count. */
  lemma FailureStops(s: Bytes, end: nat, n: nat)
    requires s != [] && s[0] == STAR && FindCrlf(s, 1) == Some(end) && Numeral(s[1..end], n) && n > 0
    requires ParseArgs(s, end + 2, 0, n, [], []).code.Some?
    ensures var code := ParseArgs(s, end + 2, 0, n, [], []).code.value;
            Stops(s, code) && code !in {EmptyInput, ExpectedArray, BadArrayLength, EmptyArray}
  {
    hide FindCrlf, NoCrlf, Numeral, Listed, ParseArgs, Wrong;
    assert s[0..] == s;
    TailLine(s, 0);
    var ds, parts, tail := ArgsRead(s, end + 2, 0, n, [], []);
    assert Begins(s, n, ds, parts, tail);
    WrongCodes(tail, ParseArgs(s, end + 2, 0, n, [], []).code.value);
  }

  lemma FailureIsSaid(s: Bytes)
    requires Parse(s).code.Some?
    ensures Says(s, Parse(s).code.value)
  {
    hide FindCrlf, NoCrlf, ParseUnsigned, Numeral, IsNumeral, ParseArgs, Stops;
    if s != [] && s[0] == STAR {
      CrlfFound(s, 1);
      if FindCrlf(s, 1).Some? {
        var end := FindCrlf(s, 1).value;
        var d := s[1..end];
        assert s[0..] == s;
        TailLine(s, 0);
        NumeralParses(d);
        if ParseUnsigned(d, MAX_U64).Some? && ParseUnsigned(d, MAX_U64).value > 0 {
          FailureStops(s, end, ParseUnsigned(d, MAX_U64).value);
        }
      }
    }
  }

  lemma WrongCodes(tail: Bytes, code: Code)
    requires Wrong(tail, code)
    ensures code !in {EmptyInput, ExpectedArray, BadArrayLength, EmptyArray}
  {
  }

  lemma StopIsRead(s: Bytes, code: Code)
    requires Stops(s, code)
    ensures Parse(s).code == Some(code)
  {
    hide Begins, Wrong, Parse, ReadBulk;
    var n: nat, ds, parts, tail :| Begins(s, n, ds, parts, tail) && |parts| < n && Wrong(tail, code);
    BeginningIsRead(s, n, ds, parts, tail);
    WrongIsRead(s, |s| - |tail|, code);
  }

  lemma SaidIsFailure(s: Bytes, code: Code)
    requires Says(s, code)
    ensures Parse(s).code == Some(code)
  {
    hide FindCrlf, NoCrlf, ParseUnsigned, Numeral, IsNumeral, Stops, ParseArgs;
    if Stops(s, code) && code !in {EmptyInput, ExpectedArray, BadArrayLength, EmptyArray} {
      StopIsRead(s, code);
    } else {
      assert s[0..] == s;
      match code {
        case BadArrayLength =>
          var line: Bytes, rest: Bytes :| s == [42] + (line + ([13, 10] + rest)) && NoCrlf(line) && !IsNumeral(line);
          TailParts(s, 0, 42, line, rest);
          NumeralParses(line);
        case EmptyArray =>
          var d: Bytes, rest: Bytes :| s == [42] + (d + ([13, 10] + rest)) && Numeral(d, 0);
          CountIsRead(s, d, 0, rest);
        case MissingCrlf =>
          NoCrlfFound(s, 1);
        case _ =>
      }
    }
  }

  /** The parser reports an error exactly when that is what is wrong with the bytes. */
  lemma FailsExactly(s: Bytes, code: Code)
    ensures Parse(s).code == Some(code) <==> Says(s, code)
  {
    hide Says, Parse;
    if Parse(s).code == Some(code) {
      FailureIsSaid(s);
    }
    if Says(s, code) {
      SaidIsFailure(s, code);
    }
  }

  // ---------- the stream ----------

  lemma ShortExactly(tail: Bytes)
    ensures Short(tail) <==> Wrong(tail, MissingPrefix) || Wrong(tail, MissingCrlf) || Wrong(tail, IncompleteData)
  {
  }

  /** The server waits for more bytes exactly as long as what is there may be the beginning of a command. */
  lemma WaitsExactly(s: Bytes)
    requires s != []
    ensures Parse(s).code.Some? && Incomplete(Parse(s).code.value) <==> Partial(s)
  {
    hide Parse, Begins, Short, Wrong, NoCrlf;
    FailsExactly(s, MissingPrefix);
    FailsExactly(s, MissingCrlf);
    FailsExactly(s, IncompleteData);
    if Partial(s) && !NoCrlf(s[1..]) {
      var n: nat, ds, parts, tail :| Begins(s, n, ds, parts, tail) && |parts| < n && Short(tail);
      ShortExactly(tail);
    }
    if Parse(s).code.Some? && Incomplete(Parse(s).code.value) {
      var code := Parse(s).code.value;
      if Stops(s, code) {
        var n: nat, ds, parts, tail :| Begins(s, n, ds, parts, tail) && |parts| < n && Wrong(tail, code);
        ShortExactly(tail);
        BeginsWithStar(s, n, ds, parts, tail);
      }
    }
  }

  lemma BeginsWithStar(s: Bytes, n: nat, ds: seq<Bytes>, parts: seq<Bytes>, tail: Bytes)
    requires Begins(s, n, ds, parts, tail)
    ensures s != [] && s[0] == 42
  {
    hide Listed, Numeral;
  }

  /**
    * What is found in a stream: the commands in front of it; of the rest, which starts with none, it is an
    * error exactly if it is not the beginning of one, and which error is what is wrong with it.
    */
  lemma {:induction false} SplitExactly(s: Bytes)
    ensures var r := Split(s);
            && Commands(s, r.commands, r.rest) && (forall parts, tail :: !Frame(r.rest, parts, tail))
            && (r.error.Some? <==> r.rest != [] && !Partial(r.rest))
            && (r.error.Some? ==> Says(r.rest, r.error.value))
    decreases |s|
  {
    hide Parse, Begins, Partial, Says;
    if s == [] {
      FramesAreLong([]);
    } else {
      SucceedsExactly(s);
      if Parse(s).code.None? {
        var parts, tail := ReadIsFrame(s);
        FrameIsRead(s, parts, tail);
        SplitExactly(tail);
        var more := Split(tail).commands;
        assert ([Cmd(parts[0], parts[1..])] + more)[1..] == more;
      } else {
        WaitsExactly(s);
        FailsExactly(s, Parse(s).code.value);
      }
    }
  }

  lemma FramesAreLong(s: Bytes)
    ensures s == [] ==> forall parts, tail :: !Frame(s, parts, tail)
  {
    hide Begins;
    forall n: nat, ds, parts, tail | Begins(s, n, ds, parts, tail)
      ensures s != []
    {
      BeginsWithStar(s, n, ds, parts, tail);
    }
  }

  /** There is no other way to take a stream apart. */
  lemma {:induction false} SplitIsOnly(s: Bytes, commands: seq<Cmd>, rest: Bytes)
    requires Commands(s, commands, rest) && forall parts, tail :: !Frame(rest, parts, tail)
    ensures Split(s).commands == commands && Split(s).rest == rest
    decreases |commands|
  {
    hide Parse, Begins;
    if commands == [] {
      SucceedsExactly(s);
    } else {
      var parts, tail :| Frame(s, parts, tail) && commands[0] == Cmd(parts[0], parts[1..]) && Commands(tail, commands[1..], rest);
      FrameIsRead(s, parts, tail);
      SplitIsOnly(tail, commands[1..], rest);
      assert [commands[0]] + commands[1..] == commands;
    }
  }

  /** A stream that starts with anything but `*` is refused at once. */
  lemma StarIsNeeded(s: Bytes)
    requires s != [] && s[0] != 42
    ensures Split(s) == Stream([], s, Some(ExpectedArray))
  {
    hide Parse;
    FailsExactly(s, ExpectedArray);
  }
}
