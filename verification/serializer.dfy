/**
 The streaming HTML serializer of yarte_dom (yarte_dom/src/serializer.rs),
 adapted from html5ever's implementation of section 13.3 of the WHATWG HTML
 Standard ("Serializing HTML fragments"). The model follows the Rust code.

 The serializer is a state record: a stack of element frames, the
 `skip_ws` flag, the one-slot deferred-whitespace buffer `next_ws`, and the
 text written so far to the output sink. Every operation is a pure step
 from one state to the next; a panic of the source is an `Err`.
 */
module Serializer {
  import opened Prelude
  import opened StrNom
  import opened TextTrim

  /** Namespaces of element and attribute names (markup5ever's `ns!` atoms). */
  datatype Namespace = NoNamespace | Html | MathMl | Svg | Xml | Xmlns | XLink | Other(url: string)

  datatype QualName = QualName(ns: Namespace, local: string)

  /** One attribute: qualified name and (unescaped) value. */
  datatype Attr = Attr(name: QualName, value: string)

  /** Per open element: its local name when it is an HTML element, and two flags. */
  datatype ElemInfo = ElemInfo(htmlName: Option<string>, ignoreChildren: bool, processedFirstChild: bool)

  /** The two panics of the source: `parent()` and `end_elem` on an empty stack. */
  datatype Panic = NoParentElemInfo | NoElemInfo

  datatype HtmlSerializer = HtmlSerializer(stack: seq<ElemInfo>, skipWs: bool, nextWs: Option<string>, out: string)

  type Outcome = Result<HtmlSerializer, Panic>

  /** HTML elements that never have children or an end tag. */
  const VoidElements: set<string> :=
    {"area", "base", "basefont", "bgsound", "br", "col", "embed", "frame", "hr",
     "img", "input", "keygen", "link", "meta", "param", "source", "track", "wbr"}

  /** HTML elements whose text content is written without escaping. */
  const RawTextElements: set<string> :=
    {"style", "script", "xmp", "iframe", "noembed", "noframes", "plaintext"}

  const NoBreakSpace: char := '\U{00A0}'

  /** The sentinel frame at the bottom of a fresh serializer. */
  const RootFrame: ElemInfo := ElemInfo(None, false, false)

  /** The buffered whitespace as text (empty when nothing is buffered). */
  function Pending(s: HtmlSerializer): string {
    match s.nextWs
    case Some(w) => w
    case None => ""
  }

  function Top(s: HtmlSerializer): ElemInfo
    requires |s.stack| > 0
  {
    s.stack[|s.stack| - 1]
  }

  /** Whether text under frame `f` is written verbatim. */
  predicate IsRawText(f: ElemInfo) {
    f.htmlName.Some? && f.htmlName.value in RawTextElements
  }

  //
  // Escaping
  //

  /** Whether `write_escaped` rewrites `c` in the given mode. */
  predicate IsEscaped(c: char, attrMode: bool) {
    c == '&' || c == NoBreakSpace || (attrMode && c == '"') || (!attrMode && (c == '<' || c == '>'))
  }

  function EscapeChar(c: char, attrMode: bool): string {
    if c == '&' then "&amp;"
    else if c == NoBreakSpace then "&nbsp;"
    else if c == '"' && attrMode then "&quot;"
    else if c == '<' && !attrMode then "&lt;"
    else if c == '>' && !attrMode then "&gt;"
    else [c]
  }

  /** `write_escaped`: the per-char map applied to the whole text. */
  function Escape(text: string, attrMode: bool): (r: string)
    ensures |r| >= |text|
  {
    if |text| == 0 then ""
    else EscapeChar(text[0], attrMode) + Escape(text[1..], attrMode)
  }

  /** Escaped text never holds a raw no-break space; in text mode no `<` or `>`, in attribute mode no `"`. */
  lemma {:induction false} EscapeRemovesSpecials(text: string, attrMode: bool)
    ensures NoBreakSpace !in Escape(text, attrMode)
    ensures !attrMode ==> '<' !in Escape(text, attrMode) && '>' !in Escape(text, attrMode)
    ensures attrMode ==> '"' !in Escape(text, attrMode)
    decreases |text|
  {
    if |text| > 0 {
      EscapeRemovesSpecials(text[1..], attrMode);
    }
  }

  /** Escaping distributes over concatenation, so it can be done char by char as the source does. */
  lemma {:induction false} EscapeAppend(a: string, b: string, attrMode: bool)
    ensures Escape(a + b, attrMode) == Escape(a, attrMode) + Escape(b, attrMode)
    decreases |a|
  {
    if |a| == 0 {
      assert a + b == b;
    } else {
      assert (a + b)[1..] == a[1..] + b;
      EscapeAppend(a[1..], b, attrMode);
    }
  }

  /** Text without chars to escape comes out unchanged, and only such text does. */
  lemma {:induction false} EscapeIdentity(text: string, attrMode: bool)
    ensures Escape(text, attrMode) == text <==> forall k | 0 <= k < |text| :: !IsEscaped(text[k], attrMode)
    decreases |text|
  {
    if |text| > 0 {
      EscapeIdentity(text[1..], attrMode);
      var e := Escape(text, attrMode);
      if IsEscaped(text[0], attrMode) {
        assert |EscapeChar(text[0], attrMode)| >= 4;
        assert |e| > |text|;
      } else {
        assert e == [text[0]] + Escape(text[1..], attrMode);
        if Escape(text[1..], attrMode) == text[1..] {
          assert e == text;
        } else {
          assert e[1..] == Escape(text[1..], attrMode);
          assert text[1..] != e[1..];
        }
        assert forall k | 1 <= k < |text| :: text[k] == text[1..][k - 1];
      }
    }
  }

  /**
   Decoder for the five named character references `write_escaped` produces
   (what a conforming HTML parser does with them); any other `&` is kept.
   */
  function Unescape(s: string): string
    decreases |s|
  {
    if |s| == 0 then ""
    else if s[0] != '&' then [s[0]] + Unescape(s[1..])
    else if "&amp;" <= s then "&" + Unescape(s[5..])
    else if "&nbsp;" <= s then [NoBreakSpace] + Unescape(s[6..])
    else if "&lt;" <= s then "<" + Unescape(s[4..])
    else if "&gt;" <= s then ">" + Unescape(s[4..])
    else if "&quot;" <= s then "\"" + Unescape(s[6..])
    else "&" + Unescape(s[1..])
  }

  lemma UnescapeEscapeChar(c: char, attrMode: bool, rest: string)
    ensures Unescape(EscapeChar(c, attrMode) + rest) == [c] + Unescape(rest)
  {
    var e := EscapeChar(c, attrMode);
    var s := e + rest;
    assert s[|e|..] == rest;
    if c == '&' {
      assert s[..5] == "&amp;";
    } else if c == NoBreakSpace {
      assert s[..6] == "&nbsp;";
      assert s[1] == 'n';
    } else if c == '"' && attrMode {
      assert s[..6] == "&quot;";
      assert s[1] == 'q';
    } else if c == '<' && !attrMode {
      assert s[..4] == "&lt;";
      assert s[1] == 'l';
    } else if c == '>' && !attrMode {
      assert s[..4] == "&gt;";
      assert s[1] == 'g';
    } else {
      assert s[0] == c;
    }
  }

  /** Escaping is undone by a conforming decoder, in both modes. */
  lemma {:induction false} EscapeRoundTrip(text: string, attrMode: bool)
    ensures Unescape(Escape(text, attrMode)) == text
    decreases |text|
  {
    if |text| > 0 {
      UnescapeEscapeChar(text[0], attrMode, Escape(text[1..], attrMode));
      EscapeRoundTrip(text[1..], attrMode);
    }
  }

  //
  // Names and attributes
  //

  /** `tagname`: the local name (the source only logs a warning for foreign namespaces). */
  function TagName(name: QualName): string {
    name.local
  }

  /** The prefix written before an attribute's local name. */
  function NsPrefix(name: QualName): (p: string)
    ensures p == "" <==> name.ns == NoNamespace || (name.ns == Xmlns && name.local == "xmlns")
    ensures p != "" ==> p[|p| - 1] == ':'
  {
    match name.ns
    case NoNamespace => ""
    case Xml => "xml:"
    case Xmlns => if name.local != "xmlns" then "xmlns:" else ""
    case XLink => "xlink:"
    case _ => "unknown_namespace:"
  }

  /** One attribute as written inside a start tag. */
  function AttrText(a: Attr): string {
    " " + NsPrefix(a.name) + a.name.local
      + (if |a.value| == 0 then "" else "=\"" + Escape(a.value, true) + "\"")
  }

  function AttrsText(attrs: seq<Attr>): string {
    if |attrs| == 0 then "" else AttrText(attrs[0]) + AttrsText(attrs[1..])
  }

  /** A non-empty attribute value is quoted, cannot close its quotes early, and decodes back. */
  lemma AttrValueQuoted(a: Attr)
    requires |a.value| > 0
    ensures exists e: string :: AttrText(a) == " " + NsPrefix(a.name) + a.name.local + "=\"" + e + "\""
                                && '"' !in e && Unescape(e) == a.value
  {
    EscapeRoundTrip(a.value, true);
    EscapeRemovesSpecials(a.value, true);
    var e := Escape(a.value, true);
    assert AttrText(a) == " " + NsPrefix(a.name) + a.name.local + "=\"" + e + "\"";
  }

  //
  // The serializer
  //

  /** `new`: one root frame, nothing buffered, whitespace kept, nothing written. */
  function New(): (s: HtmlSerializer)
    ensures |s.stack| == 1 && Top(s).htmlName.None?
    ensures !Top(s).ignoreChildren && !Top(s).processedFirstChild
    ensures Pending(s) == "" && s.nextWs.None? && !s.skipWs && s.out == ""
  {
    HtmlSerializer([RootFrame], false, None, "")
  }

  /** `parent`: the top frame, or the panic "no parent ElemInfo". */
  function Parent(s: HtmlSerializer): (r: Result<ElemInfo, Panic>)
    ensures r.Err? <==> |s.stack| == 0
    ensures r.Ok? ==> r.value == Top(s)
    ensures r.Err? ==> r.error == NoParentElemInfo
  {
    if |s.stack| == 0 then Err(NoParentElemInfo) else Ok(s.stack[|s.stack| - 1])
  }

  /** `start_elem`. */
  function StartElem(s: HtmlSerializer, name: QualName, attrs: seq<Attr>): (r: Outcome)
    ensures r.Err? <==> |s.stack| == 0
    ensures r.Ok? ==> |r.value.stack| == |s.stack| + 1
    ensures r.Ok? ==> r.value.nextWs.None? && r.value.skipWs == s.skipWs
    ensures r.Ok? ==> r.value.stack[..|s.stack| - 1] == s.stack[..|s.stack| - 1]
    ensures r.Ok? ==> Top(r.value).htmlName == (if name.ns == Html then Some(name.local) else None)
    ensures r.Ok? ==> !Top(r.value).processedFirstChild
    ensures r.Ok? && Top(s).ignoreChildren ==>
              && r.value.out == s.out + Pending(s)
              && Top(r.value).ignoreChildren
              && r.value.stack[|s.stack| - 1] == Top(s)
    ensures r.Ok? && !Top(s).ignoreChildren ==>
              && r.value.out == s.out + Pending(s) + "<" + name.local + AttrsText(attrs) + ">"
              && (Top(r.value).ignoreChildren <==> name.ns == Html && name.local in VoidElements)
              && r.value.stack[|s.stack| - 1] == Top(s).(processedFirstChild := true)
  {
    var flushed := s.out + Pending(s);
    var htmlName := if name.ns == Html then Some(name.local) else None;
    match Parent(s)
    case Err(e) => Err(e)
    case Ok(parent) =>
      if parent.ignoreChildren then
        Ok(s.(stack := s.stack + [ElemInfo(htmlName, true, false)], nextWs := None, out := flushed))
      else
        var ignore := name.ns == Html && name.local in VoidElements;
        var depth := |s.stack|;
        var stack := s.stack[depth - 1 := parent.(processedFirstChild := true)];
        Ok(s.(stack := stack + [ElemInfo(htmlName, ignore, false)],
              nextWs := None,
              out := flushed + "<" + TagName(name) + AttrsText(attrs) + ">"))
  }

  /**
   `end_elem` with the buffered whitespace consumed when it is written, as every
   other flushing operation does (see EndElemAsWritten for the code as written).
   */
  function EndElem(s: HtmlSerializer, name: QualName): (r: Outcome)
    ensures r.Err? <==> |s.stack| == 0
    ensures r.Ok? ==> r.value.stack == s.stack[..|s.stack| - 1]
    ensures r.Ok? ==> r.value.nextWs.None? && r.value.skipWs == s.skipWs
    ensures r.Ok? ==> r.value.out == s.out + Pending(s) + (if Top(s).ignoreChildren then "" else "</" + name.local + ">")
  {
    if |s.stack| == 0 then Err(NoElemInfo)
    else
      var info := s.stack[|s.stack| - 1];
      var s1 := s.(stack := s.stack[..|s.stack| - 1], nextWs := None, out := s.out + Pending(s));
      if info.ignoreChildren then Ok(s1)
      else Ok(s1.(out := s1.out + "</" + TagName(name) + ">"))
  }

  /** `end_elem` as written: the buffered whitespace is written but stays buffered. */
  function EndElemAsWritten(s: HtmlSerializer, name: QualName): (r: Outcome)
    ensures r.Err? <==> |s.stack| == 0
    ensures r.Ok? ==> r.value.stack == s.stack[..|s.stack| - 1]
    ensures r.Ok? ==> r.value.nextWs == s.nextWs && r.value.skipWs == s.skipWs
    ensures r.Ok? ==> r.value.out == s.out + Pending(s) + (if Top(s).ignoreChildren then "" else "</" + name.local + ">")
  {
    if |s.stack| == 0 then Err(NoElemInfo)
    else
      var info := s.stack[|s.stack| - 1];
      var s1 := s.(stack := s.stack[..|s.stack| - 1], out := s.out + Pending(s));
      if info.ignoreChildren then Ok(s1)
      else Ok(s1.(out := s1.out + "</" + TagName(name) + ">"))
  }

  /** What `write_text` writes for a text body under frame `f`. */
  function TextOut(f: ElemInfo, body: string): string {
    if IsRawText(f) then body else Escape(body, false)
  }

  /** The part of a trimmed text written at once: the core, preceded by the leading whitespace unless skipping. */
  function TextBody(skipWs: bool, t: (string, string, string)): string {
    if skipWs then t.1 else t.0 + t.1
  }

  /**
   For any split `t` of `text`: what `write_text` writes is `TextOut` of `TextBody`, and
   without escaping or skipping, writing it and then the trailing part reproduces the text.
   */
  lemma TextPieces(text: string, t: (string, string, string), skipWs: bool, f: ElemInfo, flushed: string)
    requires text == t.0 + t.1 + t.2
    ensures |t.0| + |t.1| <= |text|
    ensures var body := if skipWs then t.1 else text[..|t.0| + |t.1|];
            var written := if IsRawText(f) then body else Escape(body, false);
            && written == TextOut(f, TextBody(skipWs, t))
            && (IsRawText(f) && !skipWs ==> (flushed + written) + t.2 == flushed + text)
  {
    assert text[..|t.0| + |t.1|] == t.0 + t.1;
  }

  /** `write_text`: flush the old buffer, write the text minus its trailing whitespace, buffer that. */
  function WriteText(s: HtmlSerializer, text: string): (r: Outcome)
    ensures r.Err? <==> |s.stack| == 0
    ensures r.Ok? ==> r.value.stack == s.stack && r.value.skipWs == s.skipWs
    ensures r.Ok? ==> r.value.nextWs.Some? && AllWs(r.value.nextWs.value)
    ensures r.Ok? ==> r.value.nextWs == Some(Trim(text).2)
    ensures r.Ok? ==> r.value.out == s.out + Pending(s) + TextOut(Top(s), TextBody(s.skipWs, Trim(text)))
    ensures r.Ok? && IsRawText(Top(s)) && !s.skipWs ==>
              r.value.out + r.value.nextWs.value == s.out + Pending(s) + text
  {
    match Parent(s)
    case Err(e) => Err(e)
    case Ok(parent) =>
      var escape := !(parent.htmlName.Some? && parent.htmlName.value in RawTextElements);
      var t := Trim(text);
      TextPieces(text, t, s.skipWs, parent, s.out + Pending(s));
      var body := if s.skipWs then t.1 else text[..|t.0| + |t.1|];
      Ok(s.(nextWs := Some(t.2),
            out := s.out + Pending(s) + (if escape then Escape(body, false) else body)))
  }

  /** `write_comment`: flush the buffer, leave skip mode, write the comment verbatim. */
  function WriteComment(s: HtmlSerializer, text: string): (r: HtmlSerializer)
    ensures r.stack == s.stack && r.nextWs.None? && !r.skipWs
    ensures r.out == s.out + Pending(s) + "<!--" + text + "-->"
  {
    s.(nextWs := None, skipWs := false, out := s.out + Pending(s) + "<!--" + text + "-->")
  }

  /** `write_doctype`: written verbatim; the buffer is neither written nor cleared. */
  function WriteDoctype(s: HtmlSerializer, name: string): (r: HtmlSerializer)
    ensures r.stack == s.stack && r.nextWs == s.nextWs && r.skipWs == s.skipWs
    ensures r.out == s.out + "<!DOCTYPE " + name + ">"
  {
    s.(out := s.out + "<!DOCTYPE " + name + ">")
  }

  /** `end`: write out whatever whitespace is still buffered. */
  function End(s: HtmlSerializer): (r: HtmlSerializer)
    ensures r.stack == s.stack && r.nextWs.None? && r.skipWs == s.skipWs
    ensures r.out == s.out + Pending(s)
  {
    s.(nextWs := None, out := s.out + Pending(s))
  }
}
