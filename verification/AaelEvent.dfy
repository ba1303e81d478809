/**
 * The plaintext form of an agent event. Strings are their UTF-8 bytes, so searching for an
 * ASCII character is searching for its byte.
 */
module AaelEvent {
  import opened Results
  import opened ByteCodec

  const SPACE: byte := 0x20
  const NEWLINE: byte := 0x0A

  datatype Event = Event(domain: Bytes, operation: Bytes, content: Bytes)

  datatype EventError = ContentHasNewline | NoSpace | NoSecondSpace

  /** What the type of a Rust event guarantees: three strings, the last without newline. */
  predicate ValidEvent(e: Event) {
    ValidUtf8(e.domain) && ValidUtf8(e.operation) && ValidUtf8(e.content) && NEWLINE !in e.content
  }

  function NewEvent(domain: Bytes, operation: Bytes, content: Bytes): (r: Result<Event, EventError>)
    ensures r.Success? <==> NEWLINE !in content
    ensures r.Success? ==> Print(r.value) == domain + [SPACE] + operation + [SPACE] + content
  {
    if NEWLINE in content then Failure(ContentHasNewline) else Success(Event(domain, operation, content))
  }

  function Print(e: Event): Bytes {
    e.domain + [SPACE] + e.operation + [SPACE] + e.content
  }

  function ParseEvent(s: Bytes): Result<Event, EventError> {
    match Find(s, SPACE)
    case None => Failure(NoSpace)
    case Some(first) =>
      var afterFirst := s[first + 1..];
      match Find(afterFirst, SPACE)
      case None => Failure(NoSecondSpace)
      case Some(second) =>
        var content := afterFirst[second + 1..];
        if NEWLINE in content then Failure(ContentHasNewline)
        else Success(Event(s[..first], afterFirst[..second], content))
  }

  /** The part of `s` after its first space. */
  function AfterSpace(s: Bytes): Option<Bytes> {
    match Find(s, SPACE)
    case None => None
    case Some(i) => Some(s[i + 1..])
  }

  /** Printing undoes a successful parse: the text that comes back is the one that was read. */
  lemma PrintParsed(s: Bytes)
    requires ParseEvent(s).Success?
    ensures Print(ParseEvent(s).value) == s
  {
    var first := Find(s, SPACE).value;
    var rest := s[first + 1..];
    var second := Find(rest, SPACE).value;
    SplitAt(s, first);
    SplitAt(rest, second);
    Regroup(s[..first] + [SPACE], rest[..second] + [SPACE], rest[second + 1..]);
    Regroup(s[..first] + [SPACE], rest[..second], [SPACE]);
  }

  lemma SplitAt(s: Bytes, i: nat)
    requires i < |s|
    ensures s == s[..i] + [s[i]] + s[i + 1..]
  {
  }

  /** A parse succeeds exactly when there are two spaces and no newline after the second. */
  lemma ParseSucceedsIff(s: Bytes)
    ensures ParseEvent(s).Success? <==>
            exists a, b, c :: s == a + [SPACE] + b + [SPACE] + c && SPACE !in a && SPACE !in b && NEWLINE !in c
  {
    if ParseEvent(s).Success? {
      PrintParsed(s);
      var e := ParseEvent(s).value;
      assert s == e.domain + [SPACE] + e.operation + [SPACE] + e.content;
    }
    forall a, b, c | s == a + [SPACE] + b + [SPACE] + c && SPACE !in a && SPACE !in b && NEWLINE !in c
      ensures ParseEvent(s).Success?
    {
      ParseTriple(a, b, c);
    }
  }

  /** With no space before them, the two separators are the first two spaces. */
  lemma ParseTriple(a: Bytes, b: Bytes, c: Bytes)
    requires SPACE !in a && SPACE !in b
    ensures ParseEvent(a + [SPACE] + b + [SPACE] + c) ==
            if NEWLINE in c then Failure(ContentHasNewline) else Success(Event(a, b, c))
  {
    var s := a + [SPACE] + b + [SPACE] + c;
    assert s[..|a|] == a;
    FindIs(s, SPACE, |a|);
    var rest := s[|a| + 1..];
    assert rest == b + [SPACE] + c && rest[..|b|] == b && rest[|b| + 1..] == c;
    FindIs(rest, SPACE, |b|);
  }

  /**
   * When the text of an event can be read back, in terms of its fields: whatever the
   * first two spaces of the text leave over holds no newline. A domain with spaces pushes
   * the rest of itself and the operation into the content.
   */
  predicate Reparses(e: Event) {
    match AfterSpace(e.domain)
    case None =>
      (match AfterSpace(e.operation)
       case None => true
       case Some(rest) => NEWLINE !in rest)
    case Some(rest) =>
      NEWLINE !in e.operation &&
      (match AfterSpace(rest)
       case None => true
       case Some(tail) => NEWLINE !in tail)
  }

  lemma ReparseIff(e: Event)
    requires NEWLINE !in e.content
    ensures ParseEvent(Print(e)).Success? <==> Reparses(e)
  {
    ContentOfPrinted(e);
    var fromOperation := e.operation + ([SPACE] + e.content);
    NewlineAcross(e.operation, e.content);
    if SPACE in e.domain {
      var rest := AfterSpace(e.domain).value;
      if SPACE in rest {
        NewlineAcross(AfterSpace(rest).value, fromOperation);
      }
    } else if SPACE in e.operation {
      NewlineAcross(AfterSpace(e.operation).value, e.content);
    }
  }

  lemma NewlineAcross(x: Bytes, y: Bytes)
    ensures NEWLINE in x + ([SPACE] + y) <==> NEWLINE in x || NEWLINE in y
  {
  }

  /** What a reader takes for the content of a printed event. */
  lemma ContentOfPrinted(e: Event)
    ensures var fromOperation := e.operation + ([SPACE] + e.content);
            var content :=
              match AfterSpace(e.domain)
              case None =>
                (match AfterSpace(e.operation)
                 case None => e.content
                 case Some(rest) => rest + ([SPACE] + e.content))
              case Some(rest) =>
                (match AfterSpace(rest)
                 case None => fromOperation
                 case Some(tail) => tail + ([SPACE] + fromOperation));
            ParseEvent(Print(e)).Success? <==> NEWLINE !in content
  {
    var fromOperation := e.operation + ([SPACE] + e.content);
    var fromSeparator := [SPACE] + fromOperation;
    assert Print(e) == e.domain + fromSeparator;
    assert fromSeparator[1..] == fromOperation && ([SPACE] + e.content)[1..] == e.content;
    AfterSpaceConcat(e.domain, fromSeparator);
    if SPACE in e.domain {
      AfterSpaceConcat(AfterSpace(e.domain).value, fromSeparator);
    } else {
      AfterSpaceConcat(e.operation, [SPACE] + e.content);
    }
    ParsesWhen(Print(e));
  }

  lemma ParsesWhen(s: Bytes)
    ensures ParseEvent(s).Success? <==>
            AfterSpace(s).Some? && AfterSpace(AfterSpace(s).value).Some? &&
            NEWLINE !in AfterSpace(AfterSpace(s).value).value
  {
  }

  /** The part after the first space of a concatenation comes from whichever half has that space. */
  lemma AfterSpaceConcat(x: Bytes, y: Bytes)
    ensures SPACE in x ==> AfterSpace(x + y) == Some(AfterSpace(x).value + y)
    ensures SPACE !in x && |y| > 0 && y[0] == SPACE ==> AfterSpace(x + y) == Some(y[1..])
  {
    if SPACE in x {
      var i := Find(x, SPACE).value;
      assert (x + y)[..i] == x[..i] && (x + y)[i + 1..] == x[i + 1..] + y;
      FindIs(x + y, SPACE, i);
    } else if |y| > 0 && y[0] == SPACE {
      assert (x + y)[..|x|] == x && (x + y)[|x| + 1..] == y[1..];
      FindIs(x + y, SPACE, |x|);
    }
  }

  /** The very same event comes back exactly when neither separator is ambiguous. */
  lemma ReparseIsIdentityIff(e: Event)
    requires NEWLINE !in e.content
    ensures ParseEvent(Print(e)) == Success(e) <==> SPACE !in e.domain && SPACE !in e.operation
  {
    if SPACE !in e.domain && SPACE !in e.operation {
      ParseTriple(e.domain, e.operation, e.content);
    }
  }

  /** An event the constructor accepts whose text cannot be read back. */
  lemma NewlineInOperationDoesNotReparse()
    ensures var e := Event([0x61, SPACE, 0x62], [0x63, NEWLINE, 0x64], [0x65]);
            NewEvent(e.domain, e.operation, e.content) == Success(e) && ValidEvent(e) &&
            ParseEvent(Print(e)).Failure?
  {
    var e := Event([0x61, SPACE, 0x62], [0x63, NEWLINE, 0x64], [0x65]);
    ReparseIff(e);
    FindIs(e.domain, SPACE, 1);
    assert e.operation[1] == NEWLINE;
    assert ValidUtf8([0x62]) && ValidUtf8([SPACE, 0x62]) && ValidUtf8(e.domain);
    assert e.operation[1..] == [NEWLINE, 0x64] && e.operation[1..][1..] == [0x64];
    assert ValidUtf8([0x64]) && ValidUtf8([NEWLINE, 0x64]) && ValidUtf8(e.operation);
  }

  lemma PrintIsUtf8(e: Event)
    requires ValidEvent(e)
    ensures ValidUtf8(Print(e))
  {
    Utf8Concat(e.domain, [SPACE]);
    Utf8Concat(e.domain + [SPACE], e.operation);
    Utf8Concat(e.domain + [SPACE] + e.operation, [SPACE]);
    Utf8Concat(e.domain + [SPACE] + e.operation + [SPACE], e.content);
  }
}
