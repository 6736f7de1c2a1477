/**
 `take_while` over UTF-8 text. In the Rust code the cursor's `rest` is a `&str`
 and `adv`/slicing count BYTES, but `take_while` finds the end of the run with
 `chars().position`, which counts CHARS, and then slices at that count.
 This module measures text in UTF-8 bytes to show where the two disagree, and
 gives the byte-correct version, which agrees with the char-unit model of StrNom.
 */
module Utf8Span {
  import opened Prelude
  import opened StrNom

  /** Bytes in the UTF-8 encoding of one char. */
  function Utf8Width(c: char): nat {
    var n := c as int;
    if n < 0x80 then 1 else if n < 0x800 then 2 else if n < 0x1_0000 then 3 else 4
  }

  /** Bytes in the UTF-8 encoding of a string. */
  function ByteLen(s: string): nat {
    if |s| == 0 then 0 else Utf8Width(s[0]) + ByteLen(s[1..])
  }

  lemma ByteLenPrefixStep(s: string, j: nat)
    requires 0 < j <= |s|
    ensures ByteLen(s[..j]) == Utf8Width(s[0]) + ByteLen(s[1..][..j - 1])
  {
    assert s[..j][1..] == s[1..][..j - 1];
  }

  /** The char index at which byte `b` of the encoding of `s` starts, if `b` is a char boundary. */
  function CharIndexOfByte(s: string, b: nat): (r: Option<nat>)
    ensures r.Some? ==> r.value <= |s| && ByteLen(s[..r.value]) == b
    ensures r.None? ==> forall j | 0 <= j <= |s| :: ByteLen(s[..j]) != b
  {
    if b == 0 then Some(0)
    else if |s| == 0 then None
    else if b < Utf8Width(s[0]) then
      assert forall j | 0 < j <= |s| :: ByteLen(s[..j]) >= Utf8Width(s[0]) by {
        forall j | 0 < j <= |s| { ByteLenPrefixStep(s, j); }
      }
      None
    else match CharIndexOfByte(s[1..], b - Utf8Width(s[0]))
      case None =>
        assert forall j | 0 < j <= |s| :: ByteLen(s[..j]) != b by {
          forall j | 0 < j <= |s| { ByteLenPrefixStep(s, j); }
        }
        None
      case Some(j) =>
        ByteLenPrefixStep(s, j + 1);
        Some(j + 1)
  }

  /** Every char count is a char boundary, found at that very index. */
  lemma {:induction false} CharIndexOfByteExact(s: string, j: nat)
    requires j <= |s|
    ensures CharIndexOfByte(s, ByteLen(s[..j])) == Some(j)
    decreases j
  {
    if j > 0 {
      ByteLenPrefixStep(s, j);
      assert Utf8Width(s[0]) >= 1;
      CharIndexOfByteExact(s[1..], j - 1);
    }
  }

  /** Slicing a `&str` at a byte that is not a char boundary panics. */
  datatype SliceError = NotCharBoundary(byteIndex: nat)

  /**
   `take_while!` as written, on the remaining text `rest`: returns the number of
   bytes the cursor advances and the captured span, or the slicing panic.
   */
  function TakeWhileAsWritten(rest: string, f: char -> bool): Result<(nat, string), SliceError> {
    if ByteLen(rest) == 0 then Ok((0, ""))
    else match Position(rest, Rejects(f))
      case Some(k) =>
        (match CharIndexOfByte(rest, k)
         case None => Err(NotCharBoundary(k))
         case Some(j) => Ok((k, rest[..j])))
      case None => Ok((ByteLen(rest), rest))
  }

  /** `take_while` slicing at the byte offset of the char position. */
  function TakeWhileBytes(rest: string, f: char -> bool): (r: (nat, string))
    ensures r.1 == TakeWhile(Cursor(rest, 0), f).value.1
    ensures r.0 == ByteLen(r.1) && r.1 == rest[..|r.1|]
    ensures CharIndexOfByte(rest, r.0) == Some(|r.1|)
  {
    var span := match Position(rest, Rejects(f))
      case Some(k) => rest[..k]
      case None => rest;
    assert IsRun(rest, f, span);
    RunUnique(rest, f, span, TakeWhile(Cursor(rest, 0), f).value.1);
    CharIndexOfByteExact(rest, |span|);
    (ByteLen(span), span)
  }

  /**
   The code as written is right exactly when the scan runs to the end or stops at
   a char whose position, read as a byte offset, is that char's byte offset.
   */
  lemma TakeWhileAsWrittenCorrectIff(rest: string, f: char -> bool)
    ensures TakeWhileAsWritten(rest, f) == Ok(TakeWhileBytes(rest, f))
            <==> match Position(rest, Rejects(f))
                 case None => true
                 case Some(k) => ByteLen(rest[..k]) == k
  {
  }

  /** The input that shows it: a left-to-right mark before `x` makes `ws` panic. */
  lemma DirectionMarkPanics()
    ensures TakeWhileAsWritten(['\U{200E}', 'x'], IsWs) == Err(NotCharBoundary(1))
  {
    var s := ['\U{200E}', 'x'];
    assert IsWs(s[0]) && !IsWs(s[1]);
    assert Position(s, Rejects(IsWs)) == Some(1) by {
      assert Rejects(IsWs)(s[1]);
    }
    assert Utf8Width(s[0]) == 3;
    assert ByteLen(s) == 4 by {
      assert s[1..][1..] == [];
    }
    assert CharIndexOfByte(s, 1).None?;
  }

  /** Two no-break spaces before `a`: char position 2 is byte 2, a boundary, so the span silently stops after one space. */
  lemma NoBreakSpacesShortSpan()
    ensures TakeWhileAsWritten(['\U{00A0}', '\U{00A0}', 'a'], IsWs) == Ok((2, ['\U{00A0}']))
    ensures TakeWhileBytes(['\U{00A0}', '\U{00A0}', 'a'], IsWs) == (4, ['\U{00A0}', '\U{00A0}'])
  {
    var s := ['\U{00A0}', '\U{00A0}', 'a'];
    NoBreakSpacesFacts(s);
    assert s[..1] == ['\U{00A0}'];
    assert s[..2] == ['\U{00A0}', '\U{00A0}'];
  }

  lemma NoBreakSpacesFacts(s: string)
    requires s == ['\U{00A0}', '\U{00A0}', 'a']
    ensures Position(s, Rejects(IsWs)) == Some(2)
    ensures ByteLen(s) == 5 && ByteLen(s[..2]) == 4
    ensures CharIndexOfByte(s, 2) == Some(1)
  {
    assert IsWs(s[0]) && IsWs(s[1]) && !IsWs(s[2]);
    assert Position(s[1..][1..], Rejects(IsWs)) == Some(0);
    assert Utf8Width(s[0]) == 2 && Utf8Width(s[1]) == 2 && Utf8Width(s[2]) == 1;
    assert s[1..][1..][1..] == [];
    assert ByteLen(s[1..][1..]) == 1;
    assert ByteLen(s[1..]) == 3;
    var t := s[..2];
    assert t[1..][1..] == [];
    assert ByteLen(t[1..]) == 2;
    assert CharIndexOfByte(s[1..], 0) == Some(0);
    assert s[..1] == ['\U{00A0}'];
  }

  /** On ASCII text chars and bytes coincide, so the code as written gives the byte-correct result. */
  lemma AsciiAgrees(rest: string, f: char -> bool)
    requires forall k | 0 <= k < |rest| :: rest[k] as int < 0x80
    ensures TakeWhileAsWritten(rest, f) == Ok(TakeWhileBytes(rest, f))
  {
    forall j | 0 <= j <= |rest|
      ensures ByteLen(rest[..j]) == j
    {
      AsciiByteLen(rest[..j]);
    }
    if |rest| > 0 {
      assert ByteLen(rest) >= 1;
      assert rest[..|rest|] == rest;
      match Position(rest, Rejects(f))
      case Some(k) => CharIndexOfByteExact(rest, k);
      case None =>
    } else {
      assert ByteLen(rest) == 0;
    }
  }

  lemma {:induction false} AsciiByteLen(s: string)
    requires forall k | 0 <= k < |s| :: s[k] as int < 0x80
    ensures ByteLen(s) == |s|
    decreases |s|
  {
    if |s| > 0 {
      AsciiByteLen(s[1..]);
    }
  }
}
