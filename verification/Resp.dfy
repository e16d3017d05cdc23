/**
  * Command parsing: the reference parser, the fast parser that falls back to it, and the storage of
  * the arguments. Source: src/resp.cpp:655-788, src/resp.hpp:16-88.
  */
module Resp {
  import opened Bytes

  const STAR: Byte := 42
  const DOLLAR: Byte := 36

  datatype Code =
    | EmptyInput | ExpectedArray | MissingCrlf | BadArrayLength | EmptyArray
    | MissingPrefix | ExpectedBulk | BadBulkLength | IncompleteData | MissingTerminator

  /** Errors after which the caller waits for more bytes, src/server.cpp:18-22. */
  predicate Incomplete(code: Code) { code == MissingCrlf || code == MissingPrefix || code == IncompleteData }

  /** `code` is absent on success; on failure the parts read so far stay in the command. */
  datatype Parsed = Parsed(code: Option<Code>, name: Bytes, args: seq<Bytes>, consumed: nat)

  function Fail(code: Code, name: Bytes, args: seq<Bytes>): (r: Parsed) { Parsed(Some(code), name, args, 0) }

  // ---------- the reference meaning ----------

  /** The first CRLF at or after `pos`. */
  function FindCrlf(s: Bytes, pos: nat): (r: Option<nat>)
    ensures r.Some? ==> pos <= r.value && r.value + 2 <= |s| && s[r.value] == CR && s[r.value + 1] == LF
    decreases |s| - pos
  {
    if pos + 2 > |s| then None
    else if s[pos] == CR && s[pos + 1] == LF then Some(pos)
    else FindCrlf(s, pos + 1)
  }

  /** One bulk string at `pos`: what is wrong with it, or its text and where the next one starts. */
  datatype Bulk = Broken(code: Code) | Unended(text: Bytes) | Bulk(text: Bytes, next: nat)

  function ReadBulk(s: Bytes, pos: nat): (b: Bulk)
    ensures b.Bulk? ==> pos + 5 <= b.next <= |s|
  {
    if pos >= |s| then Broken(MissingPrefix)
    else if s[pos] != DOLLAR then Broken(ExpectedBulk)
    else
      match FindCrlf(s, pos + 1)
      case None => Broken(MissingCrlf)
      case Some(end) =>
        match ParseUnsigned(s[pos + 1..end], MAX_U64)
        case None => Broken(BadBulkLength)
        case Some(length) =>
          var at := end + 2;
          if |s| - at < 2 || length > |s| - at - 2 then Broken(IncompleteData)
          else
            var text := s[at..at + length];
            if s[at + length] == CR && s[at + length + 1] == LF then Bulk(text, at + length + 2) else Unended(text)
  }

  function ParseArgs(s: Bytes, pos: nat, index: nat, count: nat, name: Bytes, args: seq<Bytes>): (r: Parsed)
    requires index <= count && pos <= |s|
    ensures r.code.None? ==> pos <= r.consumed <= |s|
    decreases |s| - pos
  {
    if index == count then Parsed(None, name, args, pos)
    else
      match ReadBulk(s, pos)
      case Broken(code) => Fail(code, name, args)
      case Unended(text) =>
        if index == 0 then Fail(MissingTerminator, text, args) else Fail(MissingTerminator, name, args + [text])
      case Bulk(text, next) =>
        if index == 0 then ParseArgs(s, next, 1, count, text, args)
        else ParseArgs(s, next, index + 1, count, name, args + [text])
  }

  function Parse(s: Bytes): (r: Parsed)
    ensures r.code.None? ==> 0 < r.consumed <= |s|
  {
    if s == [] then Fail(EmptyInput, [], [])
    else if s[0] != STAR then Fail(ExpectedArray, [], [])
    else
      match FindCrlf(s, 1)
      case None => Fail(MissingCrlf, [], [])
      case Some(end) =>
        match ParseUnsigned(s[1..end], MAX_U64)
        case None => Fail(BadArrayLength, [], [])
        case Some(count) =>
          if count == 0 then Fail(EmptyArray, [], []) else ParseArgs(s, end + 2, 0, count, [], [])
  }

  // ---------- argument storage ----------

  class ArgumentList {
    var size: nat
    var inlined: array<Bytes>
    var overflow: seq<Bytes>

    ghost predicate Valid()
      reads this
    {
      inlined.Length == 8 && (size > 8 ==> |overflow| == size)
    }

    ghost function Contents(): (s: seq<Bytes>)
      requires Valid()
      reads this, inlined
    {
      if size <= 8 then inlined[..size] else overflow
    }

    constructor ()
      ensures Valid() && fresh(inlined) && Contents() == []
    {
      size := 0;
      inlined := new Bytes[8](_ => []);
      overflow := [];
    }

    method Clear()
      requires Valid()
      modifies this`size, this`overflow
      ensures Valid() && Contents() == [] && inlined == old(inlined)
    {
      size := 0;
      overflow := [];
    }

    method PushBack(value: Bytes)
      requires Valid()
      modifies this`size, this`overflow, inlined
      ensures Valid() && Contents() == old(Contents()) + [value] && inlined == old(inlined)
    {
      if size < 8 {
        inlined[size] := value;
        size := size + 1;
        return;
      }
      if size == 8 {
        overflow := inlined[..];
      }
      overflow := overflow + [value];
      size := size + 1;
    }

    method At(index: nat) returns (value: Bytes)
      requires Valid() && index < size
      ensures value == Contents()[index]
    {
      value := if size <= 8 then inlined[index] else overflow[index];
    }
  }

  class Command {
    var name: Bytes
    const arguments: ArgumentList
    var consumed: nat

    constructor ()
      ensures arguments.Valid() && fresh(arguments) && fresh(arguments.inlined)
    {
      name, consumed := [], 0;
      arguments := new ArgumentList();
    }

    /** The command holds what a parse produced. */
    ghost predicate Holds(r: Parsed)
      requires arguments.Valid()
      reads this, arguments, arguments.inlined
    {
      name == r.name && arguments.Contents() == r.args && consumed == r.consumed
    }

    method Reset()
      requires arguments.Valid()
      modifies this`name, this`consumed, arguments
      ensures arguments.Valid() && arguments.inlined == old(arguments.inlined)
      ensures name == [] && arguments.Contents() == [] && consumed == 0
    {
      arguments.Clear();
      name, consumed := [], 0;
    }

    method Store(index: nat, text: Bytes)
      requires arguments.Valid()
      modifies this`name, arguments, arguments.inlined
      ensures arguments.Valid() && arguments.inlined == old(arguments.inlined)
      ensures name == if index == 0 then text else old(name)
      ensures arguments.Contents() == if index == 0 then old(arguments.Contents()) else old(arguments.Contents()) + [text]
    {
      if index == 0 {
        name := text;
      } else {
        arguments.PushBack(text);
      }
    }
  }

  // ---------- the slow parser ----------

  method SearchCrlf(s: Bytes, pos: nat) returns (r: Option<nat>)
    ensures r == FindCrlf(s, pos)
  {
    var i := pos;
    while i + 2 <= |s|
      invariant FindCrlf(s, pos) == FindCrlf(s, i)
    {
      if s[i] == CR && s[i + 1] == LF {
        return Some(i);
      }
      i := i + 1;
    }
    r := None;
  }

  method SlowBulk(s: Bytes, pos: nat) returns (bulk: Bulk)
    ensures bulk == ReadBulk(s, pos)
  {
    hide ParseUnsigned, FindCrlf;
    if pos >= |s| {
      return Broken(MissingPrefix);
    }
    if s[pos] != DOLLAR {
      return Broken(ExpectedBulk);
    }
    var end := SearchCrlf(s, pos + 1);
    if end.None? {
      return Broken(MissingCrlf);
    }
    var length := ParseUnsigned(s[pos + 1..end.value], MAX_U64);
    if length.None? {
      return Broken(BadBulkLength);
    }
    var at := end.value + 2;
    if |s| - at < 2 || length.value > |s| - at - 2 {
      return Broken(IncompleteData);
    }
    var text := s[at..at + length.value];
    at := at + length.value;
    if s[at] != CR || s[at + 1] != LF {
      return Unended(text);
    }
    bulk := Bulk(text, at + 2);
  }

  method ParseSlow(s: Bytes, command: Command) returns (code: Option<Code>)
    requires command.arguments.Valid()
    modifies command`name, command`consumed, command.arguments, command.arguments.inlined
    ensures command.arguments.Valid() && command.arguments.inlined == old(command.arguments.inlined)
    ensures code == Parse(s).code && command.Holds(Parse(s))
  {
    hide ParseUnsigned, FindCrlf, ReadBulk;
    command.Reset();
    if s == [] {
      return Some(EmptyInput);
    }
    if s[0] != STAR {
      return Some(ExpectedArray);
    }
    var end := SearchCrlf(s, 1);
    if end.None? {
      return Some(MissingCrlf);
    }
    var count := ParseUnsigned(s[1..end.value], MAX_U64);
    if count.None? {
      return Some(BadArrayLength);
    }
    if count.value == 0 {
      return Some(EmptyArray);
    }
    var pos, index := end.value + 2, 0;
    while index < count.value
      invariant 0 <= index <= count.value && 0 <= pos <= |s| && command.arguments.Valid() && command.consumed == 0
      invariant command.arguments.inlined == old(command.arguments.inlined)
      invariant Parse(s) == ParseArgs(s, pos, index, count.value, command.name, command.arguments.Contents())
    {
      var bulk := SlowBulk(s, pos);
      match bulk {
        case Broken(problem) =>
          return Some(problem);
        case Unended(text) =>
          command.Store(index, text);
          return Some(MissingTerminator);
        case Bulk(text, next) =>
          command.Store(index, text);
          pos := next;
      }
      index := index + 1;
    }
    command.consumed := pos;
    code := None;
  }

  // ---------- the fast parser ----------

  datatype Length = Length(value: nat, next: nat)

  /** What `read_length` must find: a whole line of digits that does not overflow. */
  function LengthAt(s: Bytes, pos: nat): (r: Option<Length>)
    requires pos <= |s|
  {
    match FindCrlf(s, pos)
    case None => None
    case Some(end) =>
      match ParseUnsigned(s[pos..end], MAX_U64)
      case None => None
      case Some(n) => Some(Length(n, end + 2))
  }

  lemma {:induction false} CrlfAfterDigits(s: Bytes, pos: nat, end: nat)
    requires pos <= end <= |s| && AllDigits(s[pos..end])
    ensures FindCrlf(s, pos) == FindCrlf(s, end)
    decreases end - pos
  {
    if pos < end {
      assert s[pos] == s[pos..end][0];
      assert s[pos + 1..end] == s[pos..end][1..];
      CrlfAfterDigits(s, pos + 1, end);
      if pos + 2 > |s| {
        assert end == pos + 1;
      }
    }
  }

  /** Digits up to `end` and no digit there: the line is a number exactly when CRLF follows at once. */
  lemma LengthEndsAtNonDigit(s: Bytes, pos: nat, end: nat)
    requires pos < end <= |s| && AllDigits(s[pos..end]) && (end == |s| || !IsDigit(s[end]))
    ensures var ends := end + 2 <= |s| && s[end] == CR && s[end + 1] == LF;
            LengthAt(s, pos) == if ends && DigitsValue(s[pos..end]) <= MAX_U64
                                then Some(Length(DigitsValue(s[pos..end]), end + 2)) else None
  {
    hide FindCrlf, DigitsValue;
    CrlfAfterDigits(s, pos, end);
    CrlfHere(s, end);
    var found := FindCrlf(s, pos);
    if found.Some? && found.value != end {
      assert end < found.value;
      var line := s[pos..found.value];
      assert line[end - pos] == s[end];
      assert !AllDigits(line);
    }
  }

  lemma CrlfHere(s: Bytes, pos: nat)
    ensures FindCrlf(s, pos) == Some(pos) <==> pos + 2 <= |s| && s[pos] == CR && s[pos + 1] == LF
  {
  }

  lemma OneDigit(s: Bytes, pos: nat)
    requires pos < |s| && IsDigit(s[pos])
    ensures AllDigits(s[pos..pos + 1]) && DigitsValue(s[pos..pos + 1]) == s[pos] - 48
  {
    var line := s[pos..pos + 1];
    assert line == [s[pos]];
    assert line[..0] == [];
  }

  lemma OneMoreDigit(s: Bytes, pos: nat, i: nat)
    requires pos <= i < |s| && AllDigits(s[pos..i]) && IsDigit(s[i])
    ensures AllDigits(s[pos..i + 1]) && DigitsValue(s[pos..i + 1]) == DigitsValue(s[pos..i]) * 10 + (s[i] - 48)
  {
    assert s[pos..i + 1][..i - pos] == s[pos..i];
  }

  lemma {:induction false} LongerIsLarger(s: Bytes, pos: nat, i: nat, j: nat)
    requires pos <= i <= j <= |s| && AllDigits(s[pos..j])
    ensures AllDigits(s[pos..i]) && DigitsValue(s[pos..i]) <= DigitsValue(s[pos..j])
    decreases j - i
  {
    assert forall k :: 0 <= k < i - pos ==> s[pos..i][k] == s[pos..j][k];
    if i < j {
      var shorter := s[pos..j - 1];
      forall k | 0 <= k < |shorter|
        ensures IsDigit(shorter[k])
      {
        assert shorter[k] == s[pos..j][k];
      }
      LongerIsLarger(s, pos, i, j - 1);
      assert s[j - 1] == s[pos..j][j - 1 - pos];
      OneMoreDigit(s, pos, j - 1);
    }
  }

  /** The number that starts with digits too large for 64 bits stays too large. */
  lemma TooLongIsNone(s: Bytes, pos: nat, i: nat)
    requires pos <= i < |s| && AllDigits(s[pos..i + 1]) && DigitsValue(s[pos..i + 1]) > MAX_U64
    ensures LengthAt(s, pos).None?
  {
    hide FindCrlf, DigitsValue;
    CrlfAfterDigits(s, pos, i + 1);
    var found := FindCrlf(s, pos);
    if found.Some? && AllDigits(s[pos..found.value]) {
      LongerIsLarger(s, pos, i + 1, found.value);
    }
  }

  method ReadLength(s: Bytes, pos: nat) returns (r: Option<Length>)
    requires pos <= |s|
    ensures r == LengthAt(s, pos)
  {
    hide FindCrlf, LengthAt, DigitsValue;
    if |s| - pos < 3 {
      ShortLine(s, pos);
      return None;
    }
    if !IsDigit(s[pos]) {
      NoDigit(s, pos);
      return None;
    }
    OneDigit(s, pos);
    var first := s[pos] - 48;
    if s[pos + 1] == CR && s[pos + 2] == LF {
      LengthEndsAtNonDigit(s, pos, pos + 1);
      return Some(Length(first, pos + 3));
    }
    if |s| - pos < 4 {
      ShortDigits(s, pos);
      return None;
    }
    if !IsDigit(s[pos + 1]) {
      LengthEndsAtNonDigit(s, pos, pos + 1);
      return None;
    }
    OneMoreDigit(s, pos, pos + 1);
    var second := s[pos + 1] - 48;
    if s[pos + 2] == CR && s[pos + 3] == LF {
      LengthEndsAtNonDigit(s, pos, pos + 2);
      return Some(Length(first * 10 + second, pos + 4));
    }
    r := ReadLongLength(s, pos);
  }

  method ReadLongLength(s: Bytes, pos: nat) returns (r: Option<Length>)
    requires pos < |s| && IsDigit(s[pos])
    ensures r == LengthAt(s, pos)
  {
    hide FindCrlf, LengthAt, DigitsValue;
    var at, value := pos, 0;
    NoDigitsYet(s, pos);
    while at != |s|
      invariant pos <= at <= |s| && AllDigits(s[pos..at]) && value == DigitsValue(s[pos..at]) <= MAX_U64
      invariant at == pos ==> IsDigit(s[pos])
    {
      if !IsDigit(s[at]) {
        break;
      }
      var digit: nat := s[at] - 48;
      OneMoreDigit(s, pos, at);
      if value > (MAX_U64 - digit) / 10 {
        TooLongIsNone(s, pos, at);
        return None;
      }
      value := value * 10 + digit;
      at := at + 1;
    }
    LengthEndsAtNonDigit(s, pos, at);
    if |s| - at < 2 || s[at] != CR || s[at + 1] != LF {
      return None;
    }
    r := Some(Length(value, at + 2));
  }

  lemma NoDigitsYet(s: Bytes, pos: nat)
    requires pos <= |s|
    ensures AllDigits(s[pos..pos]) && DigitsValue(s[pos..pos]) == 0
  {
  }

  lemma ShortLine(s: Bytes, pos: nat)
    requires pos <= |s| < pos + 3
    ensures LengthAt(s, pos).None?
  {
  }

  lemma NoDigit(s: Bytes, pos: nat)
    requires pos < |s| && !IsDigit(s[pos])
    ensures LengthAt(s, pos).None?
  {
    var found := FindCrlf(s, pos);
    if found.Some? && found.value > pos {
      assert s[pos..found.value][0] == s[pos];
    }
  }

  lemma ShortDigits(s: Bytes, pos: nat)
    requires |s| == pos + 3 && IsDigit(s[pos]) && !(s[pos + 1] == CR && s[pos + 2] == LF)
    ensures LengthAt(s, pos).None?
  {
  }

  /** `ReadBulk` in the terms the fast parser uses. */
  lemma BulkByLength(s: Bytes, pos: nat)
    requires pos < |s| && s[pos] == DOLLAR && LengthAt(s, pos + 1).Some?
    ensures var l := LengthAt(s, pos + 1).value;
            && l.next <= |s|
            && (|s| - l.next >= 2 && l.value <= |s| - l.next - 2 && s[l.next + l.value] == CR && s[l.next + l.value + 1] == LF
                ==> ReadBulk(s, pos) == Bulk(s[l.next..l.next + l.value], l.next + l.value + 2))
  {
    hide FindCrlf, ParseUnsigned;
  }

  /**
    * On every input the fast parser gives the result, the arguments and the consumed count of the slow
    * parser, whatever the reused command held before.
    */
  method ParseInto(s: Bytes, command: Command) returns (code: Option<Code>)
    requires command.arguments.Valid()
    modifies command`name, command`consumed, command.arguments, command.arguments.inlined
    ensures command.arguments.Valid() && command.arguments.inlined == old(command.arguments.inlined)
    ensures code == Parse(s).code && command.Holds(Parse(s))
  {
    hide LengthAt, FindCrlf, ParseUnsigned, ReadBulk, ParseArgs, Parse, ArgumentList.Valid, ArgumentList.Contents;
    if |s| < 4 || s[0] != STAR {
      code := ParseSlow(s, command);
      return;
    }
    command.Reset();
    var count := ReadLength(s, 1);
    if count.None? || count.value.value == 0 {
      code := ParseSlow(s, command);
      return;
    }
    CountByLength(s);
    var cursor, index := count.value.next, 0;
    while index < count.value.value
      invariant 0 <= index <= count.value.value && 0 <= cursor <= |s| && command.arguments.Valid() && command.consumed == 0
      invariant command.arguments.inlined == old(command.arguments.inlined)
      invariant Parse(s) == ParseArgs(s, cursor, index, count.value.value, command.name, command.arguments.Contents())
    {
      if cursor == |s| || s[cursor] != DOLLAR {
        code := ParseSlow(s, command);
        return;
      }
      var length := ReadLength(s, cursor + 1);
      if length.None? {
        code := ParseSlow(s, command);
        return;
      }
      BulkByLength(s, cursor);
      var at, n := length.value.next, length.value.value;
      if |s| - at < 2 || n > |s| - at - 2 {
        code := ParseSlow(s, command);
        return;
      }
      if s[at + n] != CR || s[at + n + 1] != LF {
        code := ParseSlow(s, command);
        return;
      }
      ArgsStep(s, cursor, index, count.value.value, command.name, command.arguments.Contents(), s[at..at + n], at + n + 2);
      command.Store(index, s[at..at + n]);
      cursor := at + n + 2;
      index := index + 1;
    }
    ArgsEnd(s, cursor, count.value.value, command.name, command.arguments.Contents());
    command.consumed := cursor;
    code := None;
  }

  lemma ArgsStep(s: Bytes, pos: nat, index: nat, count: nat, name: Bytes, args: seq<Bytes>, text: Bytes, next: nat)
    requires index < count && pos <= |s| && ReadBulk(s, pos) == Bulk(text, next)
    ensures pos < next <= |s|
    ensures ParseArgs(s, pos, index, count, name, args)
         == ParseArgs(s, next, index + 1, count, if index == 0 then text else name, if index == 0 then args else args + [text])
  {
    hide ReadBulk;
  }

  lemma ArgsEnd(s: Bytes, pos: nat, count: nat, name: Bytes, args: seq<Bytes>)
    requires pos <= |s|
    ensures ParseArgs(s, pos, count, count, name, args) == Parsed(None, name, args, pos)
  {
  }

  lemma CountByLength(s: Bytes)
    requires s != [] && s[0] == STAR && LengthAt(s, 1).Some? && LengthAt(s, 1).value.value > 0
    ensures LengthAt(s, 1).value.next <= |s|
    ensures Parse(s) == ParseArgs(s, LengthAt(s, 1).value.next, 0, LengthAt(s, 1).value.value, [], [])
  {
    hide FindCrlf, ParseUnsigned, ParseArgs;
  }
}
