/**
 Whole event streams fed to the serializer: the invariants every step keeps,
 what element events do under a suppressed frame, that void elements get no
 end tag, that whitespace between two texts is deferred and written at most
 once, and that comments flush the deferred whitespace before them.
 Every run lemma holds for `end_elem` as written and for the corrected one.
 */
module SerializerRuns {
  import opened Prelude
  import opened StrNom
  import opened TextTrim
  import opened Serializer

  /** The calls the code generator makes, in order. */
  datatype Event =
    | StartElement(name: QualName, attrs: seq<Attr>)
    | EndElement(name: QualName)
    | Text(text: string)
    | Comment(text: string)
    | Doctype(doctype: string)
    | EndOfStream

  /** Which `end_elem` a run uses: the one in the code, or the corrected one. */
  datatype EndElemVersion = AsWritten | Corrected

  /** `end_elem` in the chosen version; the two differ only in what stays buffered. */
  function CloseElem(v: EndElemVersion, s: HtmlSerializer, n: QualName): (r: Outcome)
    ensures r.Err? <==> |s.stack| == 0
    ensures r.Ok? ==> r.value.stack == s.stack[..|s.stack| - 1] && r.value.skipWs == s.skipWs
    ensures r.Ok? ==> r.value.nextWs == (if v == AsWritten then s.nextWs else None)
    ensures r.Ok? ==> r.value.out == s.out + Pending(s) + (if Top(s).ignoreChildren then "" else "</" + n.local + ">")
  {
    match v
    case AsWritten => EndElemAsWritten(s, n)
    case Corrected => EndElem(s, n)
  }

  function Apply(v: EndElemVersion, s: HtmlSerializer, e: Event): Outcome {
    match e
    case StartElement(n, a) => StartElem(s, n, a)
    case EndElement(n) => CloseElem(v, s, n)
    case Text(t) => WriteText(s, t)
    case Comment(t) => Ok(WriteComment(s, t))
    case Doctype(d) => Ok(WriteDoctype(s, d))
    case EndOfStream => Ok(End(s))
  }

  /** Feed the events one after the other; the first panic ends the run. */
  function Run(v: EndElemVersion, s: HtmlSerializer, evs: seq<Event>): Outcome
    decreases |evs|
  {
    if |evs| == 0 then Ok(s)
    else match Apply(v, s, evs[0])
      case Err(p) => Err(p)
      case Ok(s1) => Run(v, s1, evs[1..])
  }

  lemma ApplyText(v: EndElemVersion, s: HtmlSerializer, t: string)
    ensures Apply(v, s, Text(t)) == WriteText(s, t)
  {
  }

  /** A run takes its first step and goes on from there. */
  lemma RunStep(v: EndElemVersion, s: HtmlSerializer, e: Event, evs: seq<Event>)
    requires Apply(v, s, e).Ok?
    ensures Run(v, s, [e] + evs) == Run(v, Apply(v, s, e).value, evs)
  {
    assert ([e] + evs)[1..] == evs;
  }

  /** Suppression is inherited: above a suppressed frame every frame is suppressed. */
  ghost predicate SuppressionClosed(stack: seq<ElemInfo>) {
    forall i, j | 0 <= i < j < |stack| :: stack[i].ignoreChildren ==> stack[j].ignoreChildren
  }

  /** The buffer only ever holds whitespace. */
  ghost predicate PendingIsWs(s: HtmlSerializer) {
    s.nextWs.Some? ==> AllWs(s.nextWs.value)
  }

  ghost predicate Invariant(s: HtmlSerializer) {
    SuppressionClosed(s.stack) && PendingIsWs(s)
  }

  lemma NewInvariant()
    ensures Invariant(New())
  {
  }

  lemma StartElemKeepsClosed(s: HtmlSerializer, name: QualName, attrs: seq<Attr>)
    requires SuppressionClosed(s.stack)
    requires StartElem(s, name, attrs).Ok?
    ensures SuppressionClosed(StartElem(s, name, attrs).value.stack)
  {
    var d := |s.stack|;
    var st := StartElem(s, name, attrs).value.stack;
    assert forall i | 0 <= i < d - 1 :: st[i] == st[..d - 1][i] == s.stack[..d - 1][i] == s.stack[i];
    if !Top(s).ignoreChildren {
      assert forall i | 0 <= i < d :: !s.stack[i].ignoreChildren;
    }
  }

  lemma EndElemKeepsClosed(v: EndElemVersion, s: HtmlSerializer, name: QualName)
    requires SuppressionClosed(s.stack)
    requires CloseElem(v, s, name).Ok?
    ensures SuppressionClosed(CloseElem(v, s, name).value.stack)
  {
  }

  /** Every event keeps the invariant. */
  lemma ApplyKeepsInvariant(v: EndElemVersion, s: HtmlSerializer, e: Event)
    requires Invariant(s)
    requires Apply(v, s, e).Ok?
    ensures Invariant(Apply(v, s, e).value)
  {
    match e
    case StartElement(n, a) => StartElemKeepsClosed(s, n, a);
    case EndElement(n) => EndElemKeepsClosed(v, s, n);
    case _ =>
  }

  /** Any run that does not panic keeps the invariant. */
  lemma {:induction false} RunKeepsInvariant(v: EndElemVersion, s: HtmlSerializer, evs: seq<Event>)
    requires Invariant(s)
    requires Run(v, s, evs).Ok?
    ensures Invariant(Run(v, s, evs).value)
    decreases |evs|
  {
    if |evs| > 0 {
      ApplyKeepsInvariant(v, s, evs[0]);
      RunKeepsInvariant(v, Apply(v, s, evs[0]).value, evs[1..]);
    }
  }

  /** Nothing in the serializer turns whitespace skipping on. */
  lemma {:induction false} RunNeverSkips(v: EndElemVersion, s: HtmlSerializer, evs: seq<Event>)
    requires !s.skipWs
    requires Run(v, s, evs).Ok?
    ensures !Run(v, s, evs).value.skipWs
    decreases |evs|
  {
    if |evs| > 0 {
      RunNeverSkips(v, Apply(v, s, evs[0]).value, evs[1..]);
    }
  }

  lemma StartElemAppends(s: HtmlSerializer, n: QualName, a: seq<Attr>)
    requires StartElem(s, n, a).Ok?
    ensures s.out <= StartElem(s, n, a).value.out
  {
  }

  lemma EndElemAppends(v: EndElemVersion, s: HtmlSerializer, n: QualName)
    requires CloseElem(v, s, n).Ok?
    ensures s.out <= CloseElem(v, s, n).value.out
  {
  }

  lemma WriteTextAppends(s: HtmlSerializer, t: string)
    requires WriteText(s, t).Ok?
    ensures s.out <= WriteText(s, t).value.out
  {
  }

  /** One call only appends to the output. */
  lemma ApplyAppends(v: EndElemVersion, s: HtmlSerializer, e: Event)
    requires Apply(v, s, e).Ok?
    ensures s.out <= Apply(v, s, e).value.out
  {
    match e
    case StartElement(n, a) => StartElemAppends(s, n, a);
    case EndElement(n) => EndElemAppends(v, s, n);
    case Text(t) => WriteTextAppends(s, t);
    case _ =>
  }

  /** Output is only ever appended to. */
  lemma {:induction false} RunAppendsOutput(v: EndElemVersion, s: HtmlSerializer, evs: seq<Event>)
    requires Run(v, s, evs).Ok?
    ensures s.out <= Run(v, s, evs).value.out
    decreases |evs|
  {
    if |evs| > 0 {
      var s1 := Apply(v, s, evs[0]).value;
      ApplyAppends(v, s, evs[0]);
      RunAppendsOutput(v, s1, evs[1..]);
    }
  }

  function Delta(e: Event): int {
    if e.StartElement? then 1 else if e.EndElement? then -1 else 0
  }

  /** Start events minus end events. */
  function NetDepth(evs: seq<Event>): int {
    if |evs| == 0 then 0 else Delta(evs[0]) + NetDepth(evs[1..])
  }

  /** The stack grows by one per start and shrinks by one per end. */
  lemma {:induction false} RunDepth(v: EndElemVersion, s: HtmlSerializer, evs: seq<Event>)
    requires Run(v, s, evs).Ok?
    ensures |Run(v, s, evs).value.stack| == |s.stack| + NetDepth(evs)
    decreases |evs|
  {
    if |evs| > 0 {
      RunDepth(v, Apply(v, s, evs[0]).value, evs[1..]);
    }
  }

  /**
   A start tag, a comment and the end of the stream leave the buffer empty, and
   so does an end tag once `end_elem` is corrected.
   */
  lemma FlushEmptiesBuffer(v: EndElemVersion, s: HtmlSerializer, e: Event)
    requires Apply(v, s, e).Ok?
    requires !e.Doctype? && !e.Text?
    requires e.EndElement? ==> v == Corrected
    ensures Apply(v, s, e).value.nextWs.None?
  {
  }

  /** As written, an end tag writes the buffered whitespace and leaves it buffered. */
  lemma EndTagKeepsBuffer(s: HtmlSerializer, n: QualName)
    requires Apply(AsWritten, s, EndElement(n)).Ok?
    ensures Apply(AsWritten, s, EndElement(n)).value.nextWs == s.nextWs
    ensures s.nextWs.Some? ==> s.out + s.nextWs.value <= Apply(AsWritten, s, EndElement(n)).value.out
  {
  }

  /** After the end-of-stream call nothing is left buffered. */
  lemma {:induction false} EndOfStreamFlushes(v: EndElemVersion, s: HtmlSerializer, evs: seq<Event>)
    requires Run(v, s, evs + [EndOfStream]).Ok?
    ensures Run(v, s, evs + [EndOfStream]).value.nextWs.None?
    ensures Run(v, s, evs).Ok?
    ensures Run(v, s, evs + [EndOfStream]).value.out == Run(v, s, evs).value.out + Pending(Run(v, s, evs).value)
    decreases |evs|
  {
    if |evs| == 0 {
      assert evs + [EndOfStream] == [EndOfStream];
    } else {
      assert (evs + [EndOfStream])[1..] == evs[1..] + [EndOfStream];
      EndOfStreamFlushes(v, Apply(v, s, evs[0]).value, evs[1..]);
    }
  }

  predicate ElementEventsOnly(evs: seq<Event>) {
    forall k | 0 <= k < |evs| :: evs[k].StartElement? || evs[k].EndElement?
  }

  /** Starting at stack depth `depth`, the events never take the depth below `floor`. */
  predicate StaysAbove(evs: seq<Event>, depth: int, floor: int) {
    |evs| == 0 || (depth + Delta(evs[0]) >= floor && StaysAbove(evs[1..], depth + Delta(evs[0]), floor))
  }

  /**
   Under a suppressed frame, start and end events write nothing as long as that
   frame stays open (with nothing buffered on entry).
   */
  lemma {:induction false} SuppressedElementsSilent(v: EndElemVersion, s: HtmlSerializer, evs: seq<Event>, floor: nat)
    requires 1 <= floor <= |s.stack| && s.stack[floor - 1].ignoreChildren
    requires SuppressionClosed(s.stack)
    requires s.nextWs.None?
    requires ElementEventsOnly(evs) && StaysAbove(evs, |s.stack|, floor)
    ensures Run(v, s, evs).Ok? && Run(v, s, evs).value.out == s.out
    decreases |evs|
  {
    if |evs| > 0 {
      var e := evs[0];
      assert Top(s).ignoreChildren;
      var s1 := Apply(v, s, e).value;
      match e {
        case StartElement(n, a) =>
          StartElemKeepsClosed(s, n, a);
          assert s1.stack[floor - 1] == s.stack[floor - 1] by {
            if floor < |s.stack| {
              assert s1.stack[floor - 1] == s1.stack[..|s.stack| - 1][floor - 1];
            }
          }
        case EndElement(n) =>
          EndElemKeepsClosed(v, s, n);
      }
      assert forall k | 0 <= k < |evs[1..]| :: evs[1..][k] == evs[k + 1];
      SuppressedElementsSilent(v, s1, evs[1..], floor);
    }
  }

  /** A void HTML element never gets an end tag, whatever its attributes. */
  lemma VoidElementNoEndTag(v: EndElemVersion, s: HtmlSerializer, local: string, attrs: seq<Attr>)
    requires |s.stack| > 0 && !Top(s).ignoreChildren
    requires local in VoidElements
    ensures var name := QualName(Html, local);
            && Run(v, s, [StartElement(name, attrs), EndElement(name)]).Ok?
            && Run(v, s, [StartElement(name, attrs), EndElement(name)]).value.out
               == s.out + Pending(s) + "<" + local + AttrsText(attrs) + ">"
            && |Run(v, s, [StartElement(name, attrs), EndElement(name)]).value.stack| == |s.stack|
  {
    var name := QualName(Html, local);
    var evs := [StartElement(name, attrs), EndElement(name)];
    var s1 := StartElem(s, name, attrs).value;
    assert Run(v, s, evs) == Run(v, s1, evs[1..]);
    assert Run(v, s1, evs[1..]) == Run(v, CloseElem(v, s1, name).value, []);
  }

  /** `<img>` opened and closed writes just `<img>`. */
  lemma ImgExample(v: EndElemVersion)
    ensures var img := QualName(Html, "img");
            && Run(v, New(), [StartElement(img, []), EndElement(img)]).Ok?
            && Run(v, New(), [StartElement(img, []), EndElement(img)]).value.out == "<img>"
  {
    VoidElementNoEndTag(v, New(), "img", []);
  }

  /** A frame whose text is escaped, with whitespace kept. */
  predicate EscapingContext(s: HtmlSerializer) {
    |s.stack| > 0 && !IsRawText(Top(s)) && !s.skipWs
  }

  lemma ContextKept(s: HtmlSerializer, w: Option<string>, o: string)
    requires EscapingContext(s)
    ensures EscapingContext(s.(nextWs := w, out := o))
  {
    assert s.(nextWs := w, out := o).stack == s.stack;
  }

  lemma TextInContext(s: HtmlSerializer, a: string)
    requires EscapingContext(s)
    ensures WriteText(s, a)
         == Ok(s.(nextWs := Some(Trim(a).2), out := s.out + Pending(s) + Escape(Trim(a).0 + Trim(a).1, false)))
  {
  }

  lemma RunText(v: EndElemVersion, s: HtmlSerializer, a: string, rest: seq<Event>)
    requires |s.stack| > 0
    ensures Run(v, s, [Text(a)] + rest) == Run(v, WriteText(s, a).value, rest)
  {
    ApplyText(v, s, a);
    RunStep(v, s, Text(a), rest);
  }

  lemma RunEnd(v: EndElemVersion, s: HtmlSerializer)
    ensures Run(v, s, [EndOfStream]) == Ok(End(s))
  {
    assert Run(v, End(s), []) == Ok(End(s));
    RunStep(v, s, EndOfStream, []);
    assert [EndOfStream] + [] == [EndOfStream];
  }

  lemma RegroupOutput(o: string, ea: string, ra: string, eb: string, rb: string)
    ensures o + "" + ea + ra + eb + rb == o + ea + ra + eb + rb
  {
    assert o + "" == o;
  }

  /** Two texts then the end of the stream is the three calls in order. */
  lemma RunTwoTexts(v: EndElemVersion, s: HtmlSerializer, a: string, b: string)
    requires |s.stack| > 0
    ensures WriteText(s, a).Ok? && WriteText(WriteText(s, a).value, b).Ok?
    ensures Run(v, s, [Text(a), Text(b), EndOfStream]) == Ok(End(WriteText(WriteText(s, a).value, b).value))
  {
    var s1 := WriteText(s, a).value;
    ApplyText(v, s, a);
    ApplyText(v, s1, b);
    RunStep3(v, s, Text(a), Text(b), EndOfStream);
    RunEnd(v, WriteText(s1, b).value);
  }

  /** A three-event run is its first two steps followed by a run of the third. */
  lemma RunStep3(v: EndElemVersion, s: HtmlSerializer, e1: Event, e2: Event, e3: Event)
    requires Apply(v, s, e1).Ok? && Apply(v, Apply(v, s, e1).value, e2).Ok?
    ensures Run(v, s, [e1, e2, e3]) == Run(v, Apply(v, Apply(v, s, e1).value, e2).value, [e3])
  {
    var s1 := Apply(v, s, e1).value;
    RunStep(v, s, e1, [e2, e3]);
    assert [e1] + [e2, e3] == [e1, e2, e3];
    RunStep(v, s1, e2, [e3]);
    assert [e2] + [e3] == [e2, e3];
  }

  /**
   Two texts and the end of the stream: each text's leading whitespace and core
   come out in place, and each trailing run exactly once, right after its own text.
   */
  lemma TwoTextsDeferral(v: EndElemVersion, s: HtmlSerializer, a: string, b: string)
    requires EscapingContext(s) && s.nextWs.None?
    ensures Run(v, s, [Text(a), Text(b), EndOfStream])
         == Ok(s.(out := s.out + Escape(Trim(a).0 + Trim(a).1, false) + Trim(a).2
                                + Escape(Trim(b).0 + Trim(b).1, false) + Trim(b).2))
  {
    var ta := Trim(a);
    var tb := Trim(b);
    var ea := Escape(ta.0 + ta.1, false);
    var eb := Escape(tb.0 + tb.1, false);
    RunTwoTexts(v, s, a, b);
    TextInContext(s, a);
    var s1 := s.(nextWs := Some(ta.2), out := s.out + Pending(s) + ea);
    ContextKept(s, Some(ta.2), s1.out);
    TextInContext(s1, b);
    var s2 := s1.(nextWs := Some(tb.2), out := s1.out + Pending(s1) + eb);
    assert Pending(s) == "" && Pending(s1) == ta.2 && Pending(s2) == tb.2;
    RegroupOutput(s.out, ea, ta.2, eb, tb.2);
    assert End(s2) == s.(out := s2.out + Pending(s2));
  }

  lemma TrimFirstText()
    ensures Trim("a \n") == ("", "a", " \n")
  {
    assert "" + "a" + " \n" == "a \n";
    assert IsWs(' ') && IsWs('\n') && !IsWs('a');
    assert IsTrim("a \n", "", "a", " \n");
    TrimUnique("a \n", "", "a", " \n");
  }

  lemma TrimSecondText()
    ensures Trim("  b") == ("  ", "b", "")
  {
    assert "  " + "b" + "" == "  b";
    assert IsWs(' ') && !IsWs('b');
    assert IsTrim("  b", "  ", "b", "");
    TrimUnique("  b", "  ", "b", "");
  }

  lemma ExampleOutput()
    ensures Escape("" + "a", false) + " \n" + Escape("  " + "b", false) + "" == "a \n  b"
  {
    EscapeIdentity("a", false);
    EscapeIdentity("  b", false);
    assert "" + "a" == "a";
    assert "  " + "b" == "  b";
  }

  lemma Regroup(o: string, w: string, x: string, y: string, z: string)
    ensures o + w + x + y + z == o + (w + x + y + z)
  {
  }

  /** Text("a \n"), Text("  b"), End in an escaping element writes exactly `a \n  b`. */
  lemma WhitespaceDeferralExample(v: EndElemVersion, s: HtmlSerializer)
    requires EscapingContext(s) && s.nextWs.None?
    ensures Run(v, s, [Text("a \n"), Text("  b"), EndOfStream]) == Ok(s.(out := s.out + "a \n  b"))
  {
    TwoTextsDeferral(v, s, "a \n", "  b");
    TrimFirstText();
    TrimSecondText();
    ExampleOutput();
    Regroup(s.out, Escape("" + "a", false), " \n", Escape("  " + "b", false), "");
  }

  /** A comment after buffered "  " writes `  <!--x-->` and leaves skip mode. */
  lemma CommentAfterPendingExample(v: EndElemVersion, s: HtmlSerializer)
    requires s.nextWs == Some("  ")
    ensures Run(v, s, [Comment("x")]).value.out == s.out + "  <!--x-->"
    ensures !Run(v, s, [Comment("x")]).value.skipWs
  {
    assert Run(v, s, [Comment("x")]) == Run(v, WriteComment(s, "x"), []);
  }

  //
  // end_elem and the buffered whitespace
  //

  /** Closing an element and opening a sibling, with `w` buffered and neither frame suppressed. */
  predicate CloseThenOpenContext(s: HtmlSerializer, w: string) {
    && |s.stack| >= 2
    && !Top(s).ignoreChildren
    && !s.stack[|s.stack| - 2].ignoreChildren
    && s.nextWs == Some(w)
  }

  /** As written, `end_elem` leaves `w` buffered, so the next start tag writes it a second time. */
  lemma EndElemAsWrittenRepeatsWhitespace(s: HtmlSerializer, w: string, closing: QualName, opening: QualName)
    requires CloseThenOpenContext(s, w)
    ensures EndElemAsWritten(s, closing).Ok?
    ensures var s1 := EndElemAsWritten(s, closing).value;
            && StartElem(s1, opening, []).Ok?
            && StartElem(s1, opening, []).value.out
               == s.out + w + "</" + closing.local + ">" + w + "<" + opening.local + ">"
  {
    var s1 := EndElemAsWritten(s, closing).value;
    assert Top(s1) == s.stack[|s.stack| - 2];
    assert AttrsText([]) == "";
  }

  /** Opening `p` on a fresh serializer: `<p>` written, an escaping unsuppressed frame over the root. */
  lemma OpenP(p: QualName)
    requires p == QualName(Html, "p")
    ensures StartElem(New(), p, []).Ok?
    ensures var s1 := StartElem(New(), p, []).value;
            && s1.out == "<p>" && s1.nextWs.None? && EscapingContext(s1)
            && |s1.stack| == 2 && !s1.stack[0].ignoreChildren && !s1.stack[1].ignoreChildren
  {
    assert AttrsText([]) == "";
    assert "p" !in VoidElements && "p" !in RawTextElements;
  }

  /** Text "a " in an escaping frame with nothing buffered writes `a` and buffers the space. */
  lemma TextASpace(s: HtmlSerializer)
    requires EscapingContext(s) && s.nextWs.None?
    ensures WriteText(s, "a ") == Ok(s.(nextWs := Some(" "), out := s.out + "a"))
  {
    TextInContext(s, "a ");
    TrimTrailingSpace();
    assert "" + "a" == "a" && "a"[1..] == "";
    assert Escape("a", false) == "a";
    assert Pending(s) == "";
    assert s.out + "" + "a" == s.out + "a";
  }

  /** After text "a " in an open element under an unsuppressed parent, closing and reopening is a CloseThenOpenContext. */
  lemma BufferedAfterText(s1: HtmlSerializer)
    requires |s1.stack| >= 2 && !s1.stack[|s1.stack| - 2].ignoreChildren && !Top(s1).ignoreChildren
    ensures CloseThenOpenContext(s1.(nextWs := Some(" "), out := s1.out + "a"), " ")
  {
  }

  /** Text "a " in an open element, then closing it and opening a sibling, as written: the space is written twice. */
  lemma TextCloseOpenAsWritten(s1: HtmlSerializer, p: QualName, b: QualName)
    requires |s1.stack| >= 2 && !s1.stack[|s1.stack| - 2].ignoreChildren && !Top(s1).ignoreChildren
    requires EscapingContext(s1) && s1.nextWs.None?
    ensures WriteText(s1, "a ").Ok?
    ensures var s2 := WriteText(s1, "a ").value;
            && EndElemAsWritten(s2, p).Ok?
            && StartElem(EndElemAsWritten(s2, p).value, b, []).Ok?
            && StartElem(EndElemAsWritten(s2, p).value, b, []).value.out == s1.out + "a" + " " + "</" + p.local + ">" + " " + "<" + b.local + ">"
  {
    TextASpace(s1);
    var s2 := s1.(nextWs := Some(" "), out := s1.out + "a");
    BufferedAfterText(s1);
    EndElemAsWrittenRepeatsWhitespace(s2, " ", p, b);
  }

  /** The input that shows it: `<p>`, text "a ", `</p>`, `<b>` writes `<p>a </p> <b>`. */
  lemma EndElemAsWrittenExample(s: HtmlSerializer, p: QualName, b: QualName)
    requires s == New() && p == QualName(Html, "p") && b == QualName(Html, "b")
    ensures StartElem(s, p, []).Ok?
    ensures WriteText(StartElem(s, p, []).value, "a ").Ok?
    ensures var s2 := WriteText(StartElem(s, p, []).value, "a ").value;
            && EndElemAsWritten(s2, p).Ok?
            && StartElem(EndElemAsWritten(s2, p).value, b, []).Ok?
            && StartElem(EndElemAsWritten(s2, p).value, b, []).value.out == "<p>a </p> <b>"
  {
    OpenP(p);
    var s1 := StartElem(s, p, []).value;
    TextCloseOpenAsWritten(s1, p, b);
    ExampleString(s1.out, p.local, b.local);
  }

  lemma ExampleString(o: string, x: string, y: string)
    requires o == "<p>" && x == "p" && y == "b"
    ensures o + "a" + " " + "</" + x + ">" + " " + "<" + y + ">" == "<p>a </p> <b>"
  {
  }

  lemma TrimTrailingSpace()
    ensures Trim("a ") == ("", "a", " ")
  {
    assert "" + "a" + " " == "a ";
    assert IsWs(' ') && !IsWs('a');
    assert IsTrim("a ", "", "a", " ");
    TrimUnique("a ", "", "a", " ");
  }

  /** With the buffer consumed by `end_elem`, the whitespace is written once, before the end tag. */
  lemma EndElemWritesWhitespaceOnce(s: HtmlSerializer, w: string, closing: QualName, opening: QualName)
    requires CloseThenOpenContext(s, w)
    ensures EndElem(s, closing).Ok?
    ensures var s1 := EndElem(s, closing).value;
            && StartElem(s1, opening, []).Ok?
            && StartElem(s1, opening, []).value.out
               == s.out + w + "</" + closing.local + ">" + "<" + opening.local + ">"
  {
    var s1 := EndElem(s, closing).value;
    assert Top(s1) == s.stack[|s.stack| - 2];
    assert AttrsText([]) == "";
  }
}
