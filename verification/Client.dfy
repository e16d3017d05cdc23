/** The client's incremental reader of nested replies, client/C++/src/client.cpp:33-121. */
module Client {
  import opened Bytes
  import opened Resp
  import opened Stream

  const LIMIT: nat := 16 * 1024 * 1024
  const PLUS: Byte := 43
  const COLON: Byte := 58

  // ---------- replies ----------

  datatype Reply =
    | Line(kind: Byte, text: Bytes)
    | Integer(n: Int64)
    | BulkText(text: Bytes)
    | NullBulk
    | Array(items: seq<Reply>)
    | NullArray

  predicate NoCrlf(s: Bytes) { forall i :: 0 <= i && i + 1 < |s| ==> !(s[i] == CR && s[i + 1] == LF) }

  /** Lines carry no CRLF of their own, at any depth. */
  predicate GoodReply(r: Reply)
  {
    match r
    case Line(kind, text) => (kind == PLUS || kind == MINUS) && NoCrlf(text)
    case Array(items) => forall i :: 0 <= i < |items| ==> GoodReply(items[i])
    case _ => true
  }

  function Header(r: Reply): (s: Bytes)
  {
    match r
    case Line(kind, text) => [kind] + text
    case Integer(n) => [COLON] + ToDecimal(n)
    case BulkText(text) => [DOLLAR] + ToDecimal(|text|)
    case NullBulk => [DOLLAR] + ToDecimal(-1)
    case Array(items) => [STAR] + ToDecimal(|items|)
    case NullArray => [STAR] + ToDecimal(-1)
  }

  function Body(r: Reply): (s: Bytes)
    decreases r, 0
  {
    match r
    case BulkText(text) => text + CRLF
    case Array(items) => EncodeAll(items)
    case _ => []
  }

  function Encode(r: Reply): (s: Bytes)
    ensures |s| >= 3
    decreases r, 1
  {
    Header(r) + CRLF + Body(r)
  }

  function EncodeAll(rs: seq<Reply>): (s: Bytes)
    ensures |s| >= 3 * |rs|
    decreases rs, 0
  {
    if rs == [] then [] else Encode(rs[0]) + EncodeAll(rs[1..])
  }

  // ---------- one turn of the reading loop ----------

  datatype Failure = BadInteger | BadLength | BadType | ReplyTooLarge | BadTerminator | Disconnected | TrailingData

  datatype Turn = NeedMore | Advance(position: nat, pending: nat) | Stop(failure: Failure)

  function TakeTurn(response: Bytes, position: nat, pending: nat): (t: Turn)
    requires position <= |response| && pending > 0
    ensures t.Advance? ==> position < t.position <= |response|
  {
    match FindCrlf(response, position)
    case None => NeedMore
    case Some(end) =>
      if position == end then Stop(BadType)
      else
        var kind := response[position];
        var length := ParseSigned(response[position + 1..end]);
        if kind == COLON && length.None? then Stop(BadInteger)
        else if (kind == DOLLAR || kind == STAR)
             && (length.None? || length.value < -1 || length.value > LIMIT) then Stop(BadLength)
        else if kind != DOLLAR && kind != STAR && kind != PLUS && kind != MINUS && kind != COLON then Stop(BadType)
        else if kind == DOLLAR && length.value >= 0 then
          var next := end + 2 + length.value + 2;
          if next > LIMIT then Stop(ReplyTooLarge)
          else if |response| < next then NeedMore
          else if response[next - 2] != CR || response[next - 1] != LF then Stop(BadTerminator)
          else Advance(next, pending - 1)
        else
          var more := if kind == STAR && length.value > 0 then length.value else 0;
          if pending - 1 + more > LIMIT then Stop(ReplyTooLarge) else Advance(end + 2, pending - 1 + more)
  }

  datatype Outcome = Received(response: Bytes) | Failed(failure: Failure)

  function Joined(fragments: seq<Bytes>): (s: Bytes)
  {
    if fragments == [] then [] else Joined(fragments[..|fragments| - 1]) + fragments[|fragments| - 1]
  }

  /** The fragments, none of them empty, are the bytes of one well-formed reply within the size limit. */
  ghost predicate Transmits(fragments: seq<Bytes>, reply: Reply)
  {
    && GoodReply(reply) && |Encode(reply)| <= LIMIT && Joined(fragments) == Encode(reply)
    && forall i :: 0 <= i < |fragments| ==> fragments[i] != []
  }

  // ---------- a well-formed reply never stops the reader ----------

  ghost predicate AllGood(rs: seq<Reply>) { forall i :: 0 <= i < |rs| ==> GoodReply(rs[i]) }

  /** `todo` are the replies that still begin at `position` of the whole message. */
  ghost predicate Rest(whole: Bytes, position: nat, todo: seq<Reply>)
  {
    AllGood(todo) && position <= |whole| && whole[position..] == EncodeAll(todo)
  }

  lemma {:induction false} CrlfAfterClean(s: Bytes, from: nat, end: nat)
    requires from <= end && end + 2 <= |s| && s[end] == CR && s[end + 1] == LF
    requires forall i :: from <= i < end ==> !(s[i] == CR && s[i + 1] == LF)
    ensures FindCrlf(s, from) == Some(end)
    decreases end - from
  {
    if from < end {
      CrlfAfterClean(s, from + 1, end);
    }
  }

  lemma NumbersAreClean(n: int)
    ensures forall i :: 0 <= i < |ToDecimal(n)| ==> ToDecimal(n)[i] != CR && ToDecimal(n)[i] != LF
  {
    hide Digits;
    var d := Digits(if n < 0 then -n else n);
    assert forall i :: 0 <= i < |d| ==> IsDigit(d[i]);
  }

  lemma HeaderClean(r: Reply)
    requires GoodReply(r)
    ensures |Header(r)| >= 1 && NoCrlf(Header(r))
  {
    hide ToDecimal, GoodReply;
    match r {
      case Line(kind, text) => LineClean(r);
      case Integer(n) => NumbersAreClean(n);
      case BulkText(text) => NumbersAreClean(|text|);
      case NullBulk => NumbersAreClean(-1);
      case Array(items) => NumbersAreClean(|items|);
      case NullArray => NumbersAreClean(-1);
    }
  }

  lemma LineClean(r: Reply)
    requires r.Line? && GoodReply(r)
    ensures NoCrlf(Header(r)) && (r.kind == PLUS || r.kind == MINUS)
  {
    var h := Header(r);
    forall i | 0 <= i && i + 1 < |h|
      ensures !(h[i] == CR && h[i + 1] == LF)
    {
      if i > 0 {
        assert h[i] == r.text[i - 1] && h[i + 1] == r.text[i];
      }
    }
  }

  /** The first CRLF after the start of a reply is the end of its header. */
  lemma HeaderEnds(whole: Bytes, position: nat, r: Reply)
    requires GoodReply(r) && position + |Header(r)| + 2 <= |whole|
    requires whole[position..position + |Header(r)| + 2] == Header(r) + CRLF
    ensures FindCrlf(whole, position) == Some(position + |Header(r)|)
    ensures whole[position] == Header(r)[0] && whole[position + 1..position + |Header(r)|] == Header(r)[1..]
  {
    hide FindCrlf, Header, GoodReply;
    HeaderClean(r);
    var h := Header(r);
    var end := position + |h|;
    var s := whole[position..end + 2];
    assert whole[position..end] == s[..|h|] == h;
    assert whole[end] == s[|h|] && whole[end + 1] == s[|h| + 1];
    forall i | position <= i < end
      ensures !(whole[i] == CR && whole[i + 1] == LF)
    {
      assert whole[i] == s[i - position] && whole[i + 1] == s[i - position + 1];
    }
    CrlfAfterClean(whole, position, end);
    assert whole[position] == s[0];
    assert whole[position + 1..end] == whole[position..end][1..];
  }

  lemma {:induction false} EncodeAllConcat(a: seq<Reply>, b: seq<Reply>)
    ensures EncodeAll(a + b) == EncodeAll(a) + EncodeAll(b)
    decreases |a|
  {
    hide Encode;
    if a == [] {
      assert a + b == b;
    } else {
      EncodeAllConcat(a[1..], b);
      assert (a + b)[1..] == a[1..] + b;
    }
  }

  /** What is left to read once the header (and for a bulk its text) has been read. */
  function Next(todo: seq<Reply>): (r: seq<Reply>)
    requires todo != []
  {
    (if todo[0].Array? then todo[0].items else []) + todo[1..]
  }

  lemma NextRest(whole: Bytes, position: nat, todo: seq<Reply>)
    requires Rest(whole, position, todo) && todo != []
    ensures var r := todo[0];
            var head := Header(r) + CRLF;
            var next := position + |head| + (if r.BulkText? then |r.text| + 2 else 0);
            && GoodReply(r)
            && position + |head| <= |whole| && whole[position..position + |head|] == head
            && next <= |whole| && (r.BulkText? ==> whole[next - 2..next] == CRLF)
            && Rest(whole, next, Next(todo))
  {
    hide GoodReply, Header, Encode, EncodeAll, Body;
    var r := todo[0];
    var head, body, rest := Header(r) + CRLF, Body(r), EncodeAll(todo[1..]);
    EncodeAllHead(todo);
    BodyOf(r);
    Cut(whole, position, head, body + rest);
    var at := position + |head|;
    if r.Array? {
      ArrayItemsGood(r);
      EncodeAllConcat(r.items, todo[1..]);
    } else {
      Cut(whole, at, body, rest);
      assert Next(todo) == todo[1..];
      if r.BulkText? {
        assert whole[at..] == r.text + (CRLF + rest);
        Cut(whole, at, r.text, CRLF + rest);
        Cut(whole, at + |r.text|, CRLF, rest);
      }
    }
  }

  lemma EncodeAllHead(todo: seq<Reply>)
    requires todo != []
    ensures EncodeAll(todo) == (Header(todo[0]) + CRLF) + (Body(todo[0]) + EncodeAll(todo[1..]))
  {
    hide Header, Body;
    assert EncodeAll(todo) == Encode(todo[0]) + EncodeAll(todo[1..]);
  }

  lemma BodyOf(r: Reply)
    ensures Body(r) == if r.BulkText? then r.text + CRLF else if r.Array? then EncodeAll(r.items) else []
  {
  }

  lemma ArrayItemsGood(r: Reply)
    requires r.Array? && GoodReply(r)
    ensures AllGood(r.items)
  {
  }

  lemma LengthReads(r: Reply)
    requires r.Integer? || r.BulkText? || r.NullBulk? || r.Array? || r.NullArray?
    requires (r.BulkText? ==> |r.text| <= LIMIT) && (r.Array? ==> |r.items| <= LIMIT)
    ensures ParseSigned(Header(r)[1..])
         == Some(if r.Integer? then r.n else if r.BulkText? then |r.text| else if r.Array? then |r.items| else -1)
  {
    hide ParseSigned, ToDecimal;
    var n: int := if r.Integer? then r.n else if r.BulkText? then |r.text| else if r.Array? then |r.items| else -1;
    DecimalRoundTrip(n);
    assert Header(r)[1..] == ToDecimal(n);
  }

  /** A turn on a buffer that holds the whole header of a well-formed reply. */
  lemma TurnOnHeader(part: Bytes, position: nat, pending: nat, r: Reply)
    requires GoodReply(r) && pending > 0 && position + |Header(r)| + 2 <= |part| <= LIMIT
    requires part[position..position + |Header(r)| + 2] == Header(r) + CRLF
    requires r.Array? ==> pending - 1 + |r.items| <= LIMIT
    requires !r.Array? ==> pending - 1 <= LIMIT
    requires r.BulkText? ==> position + |Header(r)| + |r.text| + 4 <= LIMIT
    ensures var end := position + |Header(r)|;
            var next := end + |BulkPart(r)| + 2;
            TakeTurn(part, position, pending)
            == if !r.BulkText? then Advance(end + 2, pending - 1 + (if r.Array? then |r.items| else 0))
               else if |part| < next then NeedMore
               else if part[next - 2] == CR && part[next - 1] == LF then Advance(next, pending - 1)
               else Stop(BadTerminator)
  {
    hide FindCrlf, ParseSigned, Header, GoodReply;
    HeaderEnds(part, position, r);
    KindOf(r);
    if !r.Line? {
      LengthReads(r);
    }
  }

  /** A bulk's text with its terminator, which is read together with its header. */
  function BulkPart(r: Reply): (s: Bytes) { if r.BulkText? then r.text + CRLF else [] }

  /**
    * With any part of a well-formed message received, a turn waits only when bytes are missing and
    * otherwise steps over exactly the next header or bulk.
    */
  lemma TurnOnGood(whole: Bytes, n: nat, position: nat, todo: seq<Reply>)
    requires Rest(whole, position, todo) && todo != [] && position <= n <= |whole| <= LIMIT
    ensures var t := TakeTurn(whole[..n], position, |todo|);
            || (t == NeedMore && n < |whole|)
            || (t.Advance? && t.pending == |Next(todo)| && Rest(whole, t.position, Next(todo)))
  {
    hide FindCrlf, ParseSigned, Header, GoodReply, Rest, TakeTurn, Encode, EncodeAll;
    var r := todo[0];
    NextRest(whole, position, todo);
    var end := position + |Header(r)|;
    var next := end + 2 + |BulkPart(r)|;
    NextFits(whole, next, Next(todo));
    NextFits(whole, position, todo);
    if end + 2 <= n {
      var part := whole[..n];
      SliceOfPrefix(whole, n, position, end + 2);
      TurnOnHeader(part, position, |todo|, r);
      if r.BulkText? && next <= n {
        assert whole[next - 2..next][0] == whole[next - 2] && whole[next - 2..next][1] == whole[next - 1];
      }
    } else {
      HeaderEnds(whole, position, r);
      NotFoundYet(whole, n, position, end);
    }
  }

  lemma NextFits(whole: Bytes, next: nat, todo: seq<Reply>)
    requires Rest(whole, next, todo)
    ensures next <= |whole| && 3 * |todo| <= |whole| - next
  {
  }

  lemma KindOf(r: Reply)
    requires GoodReply(r)
    ensures |Header(r)| >= 1
    ensures var k := Header(r)[0];
            match r
            case Line(_, _) => k == PLUS || k == MINUS
            case Integer(_) => k == COLON
            case BulkText(_) => k == DOLLAR
            case NullBulk => k == DOLLAR
            case Array(_) => k == STAR
            case NullArray => k == STAR
  {
  }

  lemma NotFoundYet(whole: Bytes, n: nat, position: nat, end: nat)
    requires position <= n <= |whole| && FindCrlf(whole, position) == Some(end) && n < end + 2
    ensures forall pending: nat :: pending > 0 ==> TakeTurn(whole[..n], position, pending) == NeedMore
  {
    hide FindCrlf;
    if FindCrlf(whole[..n], position).Some? {
      assert whole == whole[..n] + whole[n..];
      CrlfStable(whole[..n], whole[n..], position);
    }
  }

  // ---------- the reading loop ----------

  lemma {:induction false} JoinedPrefix(fragments: seq<Bytes>, i: nat)
    requires i <= |fragments|
    ensures Joined(fragments[..i]) <= Joined(fragments)
    decreases |fragments|
  {
    if i < |fragments| {
      var m := |fragments| - 1;
      JoinedPrefix(fragments[..m], i);
      assert fragments[..m][..i] == fragments[..i];
    } else {
      assert fragments[..i] == fragments;
    }
  }

  lemma JoinedStep(fragments: seq<Bytes>, i: nat)
    requires i < |fragments|
    ensures Joined(fragments[..i + 1]) == Joined(fragments[..i]) + fragments[i]
  {
    assert fragments[..i + 1][..i] == fragments[..i];
  }

  /**
    * However the bytes of a well-formed reply are fragmented, the reader returns exactly those bytes.
    * It terminates on every input: each turn moves on in the reply or receives bytes towards the cap.
    */
  method Execute(fragments: seq<Bytes>) returns (outcome: Outcome)
    ensures forall reply :: Transmits(fragments, reply) ==> outcome == Received(Encode(reply))
  {
    hide TakeTurn, Rest, Joined, GoodReply, Encode;
    ghost var whole := Joined(fragments);
    ghost var good := exists reply :: Transmits(fragments, reply);
    ghost var todo: seq<Reply> := [];
    if good {
      var reply :| Transmits(fragments, reply);
      todo := [reply];
      StartOf(whole, reply);
    }
    JoinedNothing(fragments);
    var response: Bytes, position: nat, pending: nat, taken := [], 0, 1, 0;
    while pending != 0
      invariant taken <= |fragments| && response == Joined(fragments[..taken]) && position <= |response| <= LIMIT
      invariant good ==> Rest(whole, position, todo) && |todo| == pending && |whole| <= LIMIT
      decreases LIMIT - |response|, |response| - position
    {
      JoinedPrefix(fragments, taken);
      if good {
        assert response == whole[..|response|];
        TurnOnGood(whole, |response|, position, todo);
      }
      var turn := TakeTurn(response, position, pending);
      match turn {
        case Stop(failure) =>
          return Failed(failure);
        case Advance(next, left) =>
          if good {
            todo := Next(todo);
          }
          position, pending := next, left;
        case NeedMore =>
          if taken == |fragments| || fragments[taken] == [] {
            assert fragments[..|fragments|] == fragments;
            return Failed(Disconnected);
          }
          JoinedStep(fragments, taken);
          JoinedPrefix(fragments, taken + 1);
          if |response| + |fragments[taken]| > LIMIT {
            return Failed(ReplyTooLarge);
          }
          response := response + fragments[taken];
          taken := taken + 1;
      }
    }
    JoinedPrefix(fragments, taken);
    if good {
      EndOf(whole, position, todo);
    }
    if position != |response| {
      return Failed(TrailingData);
    }
    outcome := Received(response);
  }

  lemma StartOf(whole: Bytes, reply: Reply)
    requires GoodReply(reply) && whole == Encode(reply)
    ensures Rest(whole, 0, [reply])
  {
    hide GoodReply, Encode;
    assert EncodeAll([reply]) == Encode(reply) + EncodeAll([]);
    assert whole[0..] == whole;
  }

  lemma EndOf(whole: Bytes, position: nat, todo: seq<Reply>)
    requires Rest(whole, position, todo) && todo == []
    ensures position == |whole|
  {
  }

  lemma JoinedNothing(fragments: seq<Bytes>)
    ensures Joined(fragments[..0]) == []
  {
  }
}
