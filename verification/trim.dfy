/**
 The text-trimming primitive the serializer uses to split a text node into
 leading whitespace, core content and trailing whitespace. It classifies
 whitespace with the scanner's `IsWs`, so both components agree on which
 chars are insignificant.
 */
module TextTrim {
  import opened StrNom

  predicate AllWs(s: string) {
    forall k | 0 <= k < |s| :: IsWs(s[k])
  }

  /** Length of the maximal whitespace suffix of `s`. */
  function TrailingWsLen(s: string): (n: nat)
    ensures n <= |s|
    ensures AllWs(s[|s| - n..])
    ensures n < |s| ==> !IsWs(s[|s| - n - 1])
  {
    if |s| == 0 || !IsWs(s[|s| - 1]) then 0
    else
      var n := TrailingWsLen(s[..|s| - 1]);
      assert s[..|s| - 1][|s| - 1 - n..] == s[|s| - 1 - n..|s| - 1];
      1 + n
  }

  /** The contract a split `(l, v, r)` of `text` must meet. */
  predicate IsTrim(text: string, l: string, v: string, r: string) {
    && l + v + r == text
    && AllWs(l)
    && AllWs(r)
    && (|v| > 0 ==> !IsWs(v[0]) && !IsWs(v[|v| - 1]))
    && (|v| == 0 ==> r == [])
  }

  /**
   Splits `text` into leading whitespace, content and trailing whitespace.
   A text made only of whitespace is all leading.
   */
  function Trim(text: string): (t: (string, string, string))
    ensures IsTrim(text, t.0, t.1, t.2)
  {
    var w := Ws(Cursor(text, 0)).value;
    var body := w.0.rest;
    var n := TrailingWsLen(body);
    assert text == w.1 + body;
    assert |body| > 0 ==> body[0] == text[|w.1|];
    SplitIsTrim(text, w.1, body, n);
    (w.1, body[..|body| - n], body[|body| - n..])
  }

  /** A whitespace prefix, then a body cut before its maximal whitespace suffix, is a trim split. */
  lemma SplitIsTrim(text: string, l: string, body: string, n: nat)
    requires text == l + body && AllWs(l)
    requires |body| > 0 ==> !IsWs(body[0])
    requires n <= |body| && AllWs(body[|body| - n..])
    requires n < |body| ==> !IsWs(body[|body| - n - 1])
    ensures IsTrim(text, l, body[..|body| - n], body[|body| - n..])
  {
    assert body[..|body| - n] + body[|body| - n..] == body;
    assert l + body[..|body| - n] + body[|body| - n..] == l + body;
  }

  /** Two ways of writing `s` as a run of whitespace followed by a part not starting with one agree. */
  lemma PrefixRunUnique(s: string, l1: string, x1: string, l2: string, x2: string)
    requires s == l1 + x1 && s == l2 + x2
    requires forall k | 0 <= k < |l1| :: IsWs(l1[k])
    requires forall k | 0 <= k < |l2| :: IsWs(l2[k])
    requires |x1| > 0 ==> !IsWs(x1[0])
    requires |x2| > 0 ==> !IsWs(x2[0])
    ensures l1 == l2 && x1 == x2
  {
    assert l1 == s[..|l1|];
    assert l2 == s[..|l2|];
  }

  /** The mirror image: a part not ending in whitespace followed by a whitespace run. */
  lemma SuffixRunUnique(s: string, x1: string, r1: string, x2: string, r2: string)
    requires s == x1 + r1 && s == x2 + r2
    requires forall k | 0 <= k < |r1| :: IsWs(r1[k])
    requires forall k | 0 <= k < |r2| :: IsWs(r2[k])
    requires |x1| > 0 ==> !IsWs(x1[|x1| - 1])
    requires |x2| > 0 ==> !IsWs(x2[|x2| - 1])
    ensures x1 == x2 && r1 == r2
  {
    assert x1 == s[..|x1|];
    assert x2 == s[..|x2|];
  }

  /** Two splits meeting the trim contract are the same split. */
  lemma IsTrimUnique(text: string, l: string, v: string, r: string, l': string, v': string, r': string)
    requires IsTrim(text, l, v, r) && IsTrim(text, l', v', r')
    ensures l == l' && v == v' && r == r'
  {
    assert text == l + (v + r) && text == l' + (v' + r');
    assert |v + r| > 0 ==> (v + r)[0] == v[0];
    assert |v' + r'| > 0 ==> (v' + r')[0] == v'[0];
    PrefixRunUnique(text, l, v + r, l', v' + r');
    SuffixRunUnique(v + r, v, r, v', r');
  }

  /** The contract pins the split down: any split meeting it is the one `Trim` returns. */
  lemma TrimUnique(text: string, l: string, v: string, r: string)
    requires IsTrim(text, l, v, r)
    ensures Trim(text) == (l, v, r)
  {
    var t := Trim(text);
    IsTrimUnique(text, l, v, r, t.0, t.1, t.2);
  }
}
