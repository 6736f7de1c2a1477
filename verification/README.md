# yarte: template scanner primitives and the streaming HTML serializer

A Dafny model of two parts of yarte.

**The scanner core.** This is the cursor and parser-combinator layer the template parser is built from (`yarte_derive/src/parser/strnom.rs`):
- a `Cursor` over the remaining source text, with its absolute offset;
- the two-level error `LexError` (`Fail` aborts, `Next` tries another alternative);
- the macros `do_parse!`, `opt!`, `take_while!`, `tag!` and `map_fail!`;
- the whitespace scanners `ws`, `skip_ws` and `is_ws`.

**The DOM serializer.** This is `HtmlSerializer` (`yarte_dom/src/serializer.rs`), which turns a stream of start-tag, end-tag, text, comment and doctype calls into HTML text. It keeps:
- a stack of `ElemInfo` frames;
- a `skip_ws` flag;
- a one-slot buffer `next_ws` that holds the trailing whitespace of the last text node until the next call decides where it goes.

Modules:

- `Prelude` (prelude.dfy): `Option` and `Result`.
- `StrNom` (strnom.dfy): the cursor, the combinators as functions on parser values (`Cursor -> PResult<O>`), and the whitespace class.
- `TextTrim` (trim.dfy): the leading/content/trailing split of a text node that `write_text` relies on.
- `Serializer` (serializer.dfy): the serializer as a state record. Every method is a pure step from one state to the next. The text written so far is a field `out`, and a panic is an `Err`.
- `SerializerRuns` (serializer_runs.dfy): whole event sequences fed to the serializer (`Run`), the invariants such runs keep, and worked examples. A run takes an `EndElemVersion`: `AsWritten` closes elements with `end_elem` as it is coded, and `Corrected` uses the fix described under Findings. Every run lemma is stated for both, so each one holds of the serializer as written.
- `Utf8Span` (utf8span.dfy): the UTF-8 byte view of `take_while!` (see Findings).

Text is `seq<char>` throughout. `Cursor.Len`, `Adv` and the indices of `Find` count chars. In Rust they count bytes, and the two agree on ASCII. The `Utf8Span` module makes the byte view explicit where it matters.

`tagname` is `Serializer.TagName`. It returns the local name, and for every namespace other than html, mathml and svg it also logs a warning. The log has no effect on the output, so it has no contract of its own. Its effect is stated by `StartElem` and `EndElem`.

## Model

| member | source | states |
|---|---|---|
| StrNom.Position | yarte_derive/src/parser/strnom.rs:113 | `chars().position`: Some(k) is the first index whose char satisfies the predicate, and no earlier one does. None means no char satisfies it. |
| StrNom.Cursor.Adv | yarte_derive/src/parser/strnom.rs:12-17 | The advanced cursor is the suffix after the first `amt` chars and its length drops by `amt`. `off + len` is kept, so the offset still points at the same source position. It is empty exactly when everything was consumed. |
| StrNom.AdvCompose | yarte_derive/src/parser/strnom.rs:12-17 | Advancing by a and then by b is advancing by a + b, offsets included. |
| StrNom.Cursor.Find | yarte_derive/src/parser/strnom.rs:19-21 | None exactly when the char does not occur. Otherwise the result is an index holding it with no occurrence before it. |
| StrNom.Cursor.AdvFind | yarte_derive/src/parser/strnom.rs:23-25 | Equals `find` on the cursor advanced by `amt`. The index is relative to that point and locates the char in the original text at `amt + index`. |
| StrNom.Cursor.StartsWith | yarte_derive/src/parser/strnom.rs:31-33 | True exactly when the string fits in the remaining text and equals its prefix of that length. |
| StrNom.Cursor.AdvStartsWith | yarte_derive/src/parser/strnom.rs:27-29 | Equals `starts_with` on the advanced cursor, i.e. the slice `[amt, amt + len)` equals the string. |
| StrNom.DoParse | yarte_derive/src/parser/strnom.rs:65-84 | The first step's error is returned unchanged and later steps are not consulted. Success implies the first step succeeded. |
| StrNom.DoParseLeftIdentity | yarte_derive/src/parser/strnom.rs:56-85 | A block whose first step only returns a value, without consuming input, behaves as its continuation applied to that value. |
| StrNom.DoParseRightIdentity | yarte_derive/src/parser/strnom.rs:56-85 | A block whose last step only returns the bound value behaves as its first step. Together with associativity, `do_parse!` is a monad bind. |
| StrNom.DoParseShortCircuit | yarte_derive/src/parser/strnom.rs:65-70 | After a failing step the continuation is irrelevant: any two continuations give the same first error. |
| StrNom.DoParseAssociative | yarte_derive/src/parser/strnom.rs:56-85 | A nested `do_parse!` block behaves as the flattened block. |
| StrNom.DoParseConsumes | yarte_derive/src/parser/strnom.rs:56-85 | Sequencing forward-only parsers is forward-only: the cursor is always a suffix of the input with `off + len` kept. |
| StrNom.Opt | yarte_derive/src/parser/strnom.rs:93-106 | Never fails. It gives Some exactly when the inner parser succeeds, with that parser's cursor and value. On any error, `Fail` included, it gives None at the original cursor. |
| StrNom.OptConsumes | yarte_derive/src/parser/strnom.rs:93-106 | `opt!` of a forward-only parser is forward-only. |
| StrNom.OptAbsorbsFail | yarte_derive/src/parser/strnom.rs:93-106 | `opt!` around `map_fail!` still yields None on failure: the fatal error does not escape `opt!`. |
| StrNom.TakeWhile | yarte_derive/src/parser/strnom.rs:108-119 | Never fails. The captured span is the maximal leading run of accepted chars: every char of it is accepted, and the next char, if any, is not. The cursor is advanced by exactly the span. |
| StrNom.RunUnique | yarte_derive/src/parser/strnom.rs:108-119 | The maximal run is unique, so `take_while!` is characterised by its contract. |
| StrNom.TakeWhileIdempotent | yarte_derive/src/parser/strnom.rs:108-119 | A second `take_while!` with the same predicate captures nothing and does not move. |
| StrNom.Tag | yarte_derive/src/parser/strnom.rs:121-129 | Succeeds exactly when the input starts with the tag. Then the span is the tag and the cursor and offset advance by its length. Otherwise the error is `Next`. |
| StrNom.TagConsumes | yarte_derive/src/parser/strnom.rs:121-129 | `tag!` is forward-only. |
| StrNom.MapFail | yarte_derive/src/parser/strnom.rs:131-133 | Success passes through unchanged and every error becomes `Fail`. |
| StrNom.IsWsCodePoints | yarte_derive/src/parser/strnom.rs:148-152 | `is_ws` accepts exactly the 25 Unicode White_Space code points plus U+200E and U+200F. |
| StrNom.Ws | yarte_derive/src/parser/strnom.rs:135-138 | `ws` returns the maximal leading whitespace run and the cursor just after it. |
| StrNom.WsConsumes | yarte_derive/src/parser/strnom.rs:135-138 | `ws` is forward-only. |
| StrNom.SkipWs | yarte_derive/src/parser/strnom.rs:140-146 | Every skipped char is whitespace. The result is a suffix of the input that is empty or starts with a non-whitespace char. |
| StrNom.SkipWsIdempotent | yarte_derive/src/parser/strnom.rs:140-146 | Skipping whitespace twice is skipping it once. |
| TextTrim.Trim | yarte_dom/src/serializer.rs:193 | `trim(text) = (l, v, r)` with `l + v + r == text`. `l` and `r` are whitespace only. A non-empty `v` starts and ends with non-whitespace. An all-whitespace text is all `l`; this last clause is an assumption about `trim` (see Left out). |
| TextTrim.TrimUnique | yarte_dom/src/serializer.rs:193 | Any split meeting that contract is the one `Trim` returns. So any `trim` that meets the contract gives the same serializer behaviour, however it computes the split. |
| Serializer.Escape | yarte_dom/src/serializer.rs:65-77 | Escaping never shortens the text. |
| Serializer.EscapeRemovesSpecials | yarte_dom/src/serializer.rs:65-77 | The output holds no raw U+00A0. In text mode it holds no `<` or `>`; in attribute mode no `"`. |
| Serializer.EscapeAppend | yarte_dom/src/serializer.rs:66-75 | Escaping distributes over concatenation, as the per-char loop implies. |
| Serializer.EscapeIdentity | yarte_dom/src/serializer.rs:65-77 | The output equals the input if and only if the input has none of the mode's special chars. |
| Serializer.UnescapeEscapeChar | yarte_dom/src/serializer.rs:67-73 | Each of the five replacements (`&amp;` `&nbsp;` `&quot;` `&lt;` `&gt;`) decodes back to its char. |
| Serializer.EscapeRoundTrip | yarte_dom/src/serializer.rs:65-77 | Decoding the escaped text gives back the original, in both modes. |
| Serializer.NsPrefix | yarte_dom/src/serializer.rs:105-119 | No prefix exactly for the null namespace and for the bare `xmlns` attribute. Every other prefix ends in `:`. |
| Serializer.AttrValueQuoted | yarte_dom/src/serializer.rs:102-127 | An attribute with a value is written as ` prefix name="e"`, where `e` contains no `"` and decodes to the value. |
| Serializer.New | yarte_dom/src/serializer.rs:45-56 | One root frame that is not HTML, not suppressed and has no child processed. Nothing is buffered, whitespace is kept and nothing has been written. |
| Serializer.Parent | yarte_dom/src/serializer.rs:58-63 | Panics ("no parent ElemInfo") exactly on an empty stack, and otherwise returns the top frame. |
| Serializer.StartElem | yarte_dom/src/serializer.rs:79-162 | Panics only on an empty stack. It always flushes the buffer first and pushes one frame carrying the HTML local name. Under a suppressed parent it writes nothing more and the new frame is suppressed. Otherwise it writes `<name attrs>`, marks the parent as having a child, and suppresses the new frame exactly for the 18 void HTML elements. |
| Serializer.EndElem | yarte_dom/src/serializer.rs:164-179 | Corrected `end_elem`. It panics ("no ElemInfo") exactly on an empty stack, pops one frame, and writes the buffer once, then `</name>` unless the frame was suppressed. The buffer ends empty. |
| Serializer.EndElemAsWritten | yarte_dom/src/serializer.rs:164-179 | `end_elem` as written: the same, except that the buffer keeps its contents after being written. |
| Serializer.WriteText | yarte_dom/src/serializer.rs:181-208 | Panics only on an empty stack and leaves stack and flag alone. It flushes the old buffer and buffers exactly the trailing whitespace `r`. It writes leading whitespace plus content, or only content when skipping, escaped in text mode unless the parent is one of the 7 raw-text elements. In a raw-text parent with skipping off nothing is lost: output plus buffer is the old output, old buffer and the text. |
| Serializer.WriteComment | yarte_dom/src/serializer.rs:210-218 | Flushes the buffer and writes `<!--text-->` unescaped. It always clears skip mode and the buffer ends empty. |
| Serializer.WriteDoctype | yarte_dom/src/serializer.rs:220-224 | Writes `<!DOCTYPE name>` and leaves the buffered whitespace in place, unwritten. |
| Serializer.End | yarte_dom/src/serializer.rs:226-231 | Writes whatever whitespace is buffered and empties the buffer. |
| SerializerRuns.CloseElem | yarte_dom/src/serializer.rs:164-179 | Both versions of `end_elem` panic exactly on an empty stack, pop one frame, and write the buffer and then `</name>` unless the frame was suppressed. As written the buffer keeps its contents; corrected it ends empty. |
| SerializerRuns.NewInvariant | yarte_dom/src/serializer.rs:45-56 | A fresh serializer satisfies the run invariant: suppression is closed upward and the buffer holds only whitespace. |
| SerializerRuns.StartElemKeepsClosed | yarte_dom/src/serializer.rs:91-98 | Children of a suppressed frame are suppressed, so every frame above a suppressed frame stays suppressed. |
| SerializerRuns.EndElemKeepsClosed | yarte_dom/src/serializer.rs:168-174 | Popping a frame keeps suppression closed upward, in both versions of `end_elem`. |
| SerializerRuns.ApplyKeepsInvariant | yarte_dom/src/serializer.rs:83-231 | Every serializer call that does not panic keeps the invariant, with `end_elem` as written or corrected. |
| SerializerRuns.RunKeepsInvariant | yarte_dom/src/serializer.rs:83-231 | Any panic-free sequence of calls keeps the invariant, so the buffer only ever holds whitespace. This holds of the code as written (the buffer kept by `end_elem` is still whitespace) and of the corrected version. |
| SerializerRuns.RunNeverSkips | yarte_dom/src/serializer.rs:28 | No call sets `skip_ws`: starting with it off, it stays off, in both versions. |
| SerializerRuns.ApplyAppends | yarte_dom/src/serializer.rs:83-231 | A single call only appends to the output, in both versions. |
| SerializerRuns.RunAppendsOutput | yarte_dom/src/serializer.rs:83-231 | Output is only appended to; nothing already written is changed. Holds as written and corrected. |
| SerializerRuns.RunDepth | yarte_dom/src/serializer.rs:92-98 | After a panic-free run the stack depth changes by the number of start calls minus the number of end calls, in both versions. |
| SerializerRuns.FlushEmptiesBuffer | yarte_dom/src/serializer.rs:83-85 | `start_elem`, `write_comment` and `end` leave the buffer empty (they `take()` it). So does `end_elem`, but only in the corrected version. |
| SerializerRuns.EndTagKeepsBuffer | yarte_dom/src/serializer.rs:164-167 | As written, `end_elem` writes the buffered whitespace and leaves the buffer as it was, so the same whitespace is still pending. |
| SerializerRuns.EndOfStreamFlushes | yarte_dom/src/serializer.rs:226-231 | After the final `end` nothing is buffered, and the output is the preceding output followed by the buffered whitespace. Holds as written and corrected. |
| SerializerRuns.SuppressedElementsSilent | yarte_dom/src/serializer.rs:91-98 | Element starts and ends nested inside a suppressed frame never panic and write nothing, with nothing buffered on entry. Holds as written and corrected. |
| SerializerRuns.VoidElementNoEndTag | yarte_dom/src/serializer.rs:130-151 | A void HTML element written under an unsuppressed parent gets `<name attrs>`, and its end call writes no end tag, in both versions of `end_elem`. |
| SerializerRuns.ImgExample | yarte_dom/src/serializer.rs:130-151 | Opening and closing `img` on a fresh serializer writes exactly `<img>`, as written and corrected. |
| SerializerRuns.TwoTextsDeferral | yarte_dom/src/serializer.rs:193-207 | For two texts then `end` in an escaping, non-skipping frame, the output is the first text's leading and content parts, then its trailing whitespace, then the second text's parts and trailing whitespace. So whitespace between adjacent texts is kept, in order. Holds as written and corrected. |
| SerializerRuns.WhitespaceDeferralExample | yarte_dom/src/serializer.rs:193-207 | Texts `a \n` and `  b` then `end` write exactly `a \n  b`, as written and corrected. |
| SerializerRuns.CommentAfterPendingExample | yarte_dom/src/serializer.rs:210-218 | A comment after buffered `"  "` writes `  <!--x-->` and leaves skip mode off, as written and corrected. |
| SerializerRuns.EndElemAsWrittenRepeatsWhitespace | yarte_dom/src/serializer.rs:164-167 | As written, closing one element and opening the next with `w` buffered writes `w</c>w<o>`: the whitespace appears twice. |
| SerializerRuns.TextCloseOpenAsWritten | yarte_dom/src/serializer.rs:164-167 | As written, text `a ` in an open element, then closing it and opening a sibling, writes `a </c> <o>`: the space appears twice. |
| SerializerRuns.EndElemAsWrittenExample | yarte_dom/src/serializer.rs:164-167 | `<p>`, text `a `, `</p>`, `<b>` writes `<p>a </p> <b>` as written. |
| SerializerRuns.EndElemWritesWhitespaceOnce | yarte_dom/src/serializer.rs:164-167 | With the corrected `end_elem` the same calls write `w</c><o>`: the whitespace appears once. |
| Utf8Span.TakeWhileBytes | yarte_derive/src/parser/strnom.rs:108-119 | The byte-correct `take_while!` captures the same span as `StrNom.TakeWhile`. It advances by that span's UTF-8 byte length, which always falls on a char boundary. |
| Utf8Span.TakeWhileAsWrittenCorrectIff | yarte_derive/src/parser/strnom.rs:108-119 | `take_while!` as written gives the byte-correct result if and only if the scan reaches the end, or stops at a char index that equals that char's byte offset. |
| Utf8Span.AsciiAgrees | yarte_derive/src/parser/strnom.rs:108-119 | On ASCII text `take_while!` as written gives exactly the byte-correct result. |
| Utf8Span.DirectionMarkPanics | yarte_derive/src/parser/strnom.rs:113-114 | As written, `ws` on U+200E followed by `x` slices at byte 1, inside the mark: a panic. |
| Utf8Span.NoBreakSpacesShortSpan | yarte_derive/src/parser/strnom.rs:113-114 | As written, `ws` on two U+00A0 then `a` advances 2 bytes and captures one space. The correct result is 4 bytes and two spaces. |

## Left out

- The output sink. The `io::Write` writer is the `out` string, and I/O errors are not modelled: every write succeeds.
- `log::warn!` calls (`tagname`, foreign attribute namespaces): logging has no effect on the output.
- markup5ever's interned atoms. `QualName`, `LocalName` and `ns!` are plain strings and the `Namespace` datatype. The attribute iterator is a `seq<Attr>`.
- `yarte_parser::trim` is not part of this model. `TextTrim.Trim` is a definition meeting the contract `write_text` relies on, and `TrimUnique` shows that any function meeting it gives the same split. The definition assumes `trim` classifies whitespace as `is_ws` does.
- `Cursor::chars`: a cursor's remaining text already is its sequence of chars.
- StrNom.Cursor.Adv, StrNom.Cursor.AdvFind, StrNom.Cursor.AdvStartsWith: require `amt <= len` where Rust panics on an out-of-range slice. The non-boundary panic is modelled only in `Utf8Span`.
- StrNom.Cursor.Adv: `off` is an unbounded `nat`; the `u32` wrap-around of `off + amt as u32` (release builds) is not modelled, since it needs a 4 GiB template.
- StrNom.DoParse: the macro's variadic grammar (`name: step >> ... >> (result)`) is modelled as binary sequencing (`DoParse`, `Then`) ending in `Done`. `DoParseAssociative` shows that nesting does not matter. `call!` is function application.
- The indexing unit of the main model is chars. Rust's byte offsets are modelled only in `Utf8Span`, which relates them to the char model.
- TextTrim.Trim: `yarte_parser::trim` is not part of this model, so the clause that an all-whitespace text is split as `(text, "", "")` is an assumption. It decides what `write_text` does with whitespace-only text: the model writes it at once as leading whitespace, where a `trim` that put it in `r` would defer it to the next call.
- SerializerRuns.FlushEmptiesBuffer: does not promise that an end tag empties the buffer in the code as written, because `end_elem` writes `next_ws` without taking it (see Findings and `SerializerRuns.EndTagKeepsBuffer`).
- `processed_first_child` is stored and updated but never read by the serializer. It is kept in the model only for fidelity.
- `SerializerRuns.Event` and `Run` stand for the code generator that calls the serializer. That caller is not part of this model.

## Behaviour as coded

`write_text` and `write_comment` never look at `ignore_children`. Text or a comment inside a void element (or inside anything nested in one) is therefore still written. Only start and end tags are suppressed. This differs from the fragment-serializing algorithm of the WHATWG HTML Standard (section 13.3, "Serializing HTML fragments"), which skips the children of a void element. The model follows the code: `SuppressedElementsSilent` is stated for element events only.

## Findings

| source | as written | input that shows it | evidently intended | confidence | as-written member | corrected member |
|---|---|---|---|---|---|---|
| yarte_dom/src/serializer.rs:165-167 | `end_elem` writes `next_ws` but does not `take()` it, so the whitespace stays buffered and the next flushing call writes it again | start `p`, text `a `, end `p`, start `b` writes `<p>a </p> <b>` | the buffer is consumed when written, as in `start_elem`, `write_comment` and `end`, giving `<p>a </p><b>` | medium, not executed | SerializerRuns.EndElemAsWrittenExample, SerializerRuns.EndElemAsWrittenRepeatsWhitespace (on Serializer.EndElemAsWritten) | Serializer.EndElem, SerializerRuns.EndElemWritesWhitespaceOnce |
| yarte_derive/src/parser/strnom.rs:113-114 | `take_while!` counts chars with `chars().position` and uses that count as a byte index in `adv` and in the slice `rest[..i]` | `ws` on U+200E then `x`: byte 1 is inside the 3-byte mark, so slicing panics; two U+00A0 then `a`: the span stops after one space | slice at the byte offset of the first rejected char, so that the span is the whole whitespace run | high, not executed | Utf8Span.DirectionMarkPanics, Utf8Span.NoBreakSpacesShortSpan (on Utf8Span.TakeWhileAsWritten) | Utf8Span.TakeWhileBytes, Utf8Span.AsciiAgrees |
