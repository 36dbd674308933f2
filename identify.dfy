/**
 * The base64 clean-up `CaptchaWrite.Identify` applies to an image source
 * before it is sent for recognition: line breaks are removed from an inline
 * `data:image/` URL, everything up to and including the comma of the URL
 * header is cut off, the rest is trimmed, and a payload shorter than 255
 * characters is rejected.
 */
module Payload {
  import opened Wrappers
  import opened JsString

  /* ---------------------------------------------------------------------- */
  /* Removing every occurrence, one `replace` at a time                      */
  /* ---------------------------------------------------------------------- */

  /**
   * The string left by `while (s.indexOf(pat) != -1) s = s.replace(pat, "")`.
   * Removing an occurrence can join two halves into a new occurrence, which a
   * later round removes as well.
   */
  function Stripped(s: string, pat: string): string
    requires pat != ""
    decreases |s|
  {
    if IndexOf(s, pat) == -1 then s else Stripped(RemoveFirst(s, pat), pat)
  }

  /** The loop itself, which the script writes out because `replaceAll` may be missing. */
  method RemoveAll(s: string, pat: string) returns (r: string)
    requires pat != ""
    ensures r == Stripped(s, pat)
  {
    r := s;
    while IndexOf(r, pat) != -1
      invariant Stripped(r, pat) == Stripped(s, pat)
      decreases |r|
    {
      r := RemoveFirst(r, pat);
    }
  }

  /** Nothing of `pat` is left, and the string only got shorter. */
  lemma {:induction false} StrippedIsClean(s: string, pat: string)
    requires pat != ""
    ensures !Contains(Stripped(s, pat), pat)
    ensures |Stripped(s, pat)| <= |s|
    decreases |s|
  {
    if IndexOf(s, pat) != -1 {
      StrippedIsClean(RemoveFirst(s, pat), pat);
    }
  }

  /** Every character of `c` dropped: an independent description of removing a one-character pattern. */
  function Without(s: string, c: char): (r: string)
    ensures forall i :: 0 <= i < |r| ==> r[i] != c
  {
    if s == [] then [] else (if s[0] == c then [] else [s[0]]) + Without(s[1..], c)
  }

  lemma {:induction false} WithoutAppend(a: string, b: string, c: char)
    ensures Without(a + b, c) == Without(a, c) + Without(b, c)
  {
    if a != [] {
      var h := if a[0] == c then [] else [a[0]];
      assert (a + b)[0] == a[0];
      assert (a + b)[1..] == a[1..] + b;
      assert Without(a + b, c) == h + Without(a[1..] + b, c);
      WithoutAppend(a[1..], b, c);
      assert Without(a, c) == h + Without(a[1..], c);
    } else {
      assert a + b == b;
    }
  }

  lemma {:induction false} WithoutNone(s: string, c: char)
    requires forall i :: 0 <= i < |s| ==> s[i] != c
    ensures Without(s, c) == s
  {
    if s != [] {
      WithoutNone(s[1..], c);
    }
  }

  lemma OccursChar(s: string, c: char, j: int)
    requires 0 <= j < |s|
    ensures OccursAt(s, [c], j) <==> s[j] == c
  {
    assert s[j..j + 1] == [s[j]];
  }

  /** Dropping every `c` from a string does not see one copy of `c` more or less. */
  lemma WithoutSkips(pre: string, post: string, c: char)
    ensures Without(pre + [c] + post, c) == Without(pre + post, c)
  {
    WithoutAppend(pre + [c], post, c);
    WithoutAppend(pre, [c], c);
    WithoutAppend(pre, post, c);
    assert [c][1..] == [];
  }

  /** Removing the first copy of `c` does not change what is left once every `c` is dropped. */
  lemma RemoveFirstCharKeepsWithout(s: string, c: char)
    ensures Without(RemoveFirst(s, [c]), c) == Without(s, c)
  {
    var i := IndexOf(s, [c]);
    if i != -1 {
      OccursChar(s, c, i);
      var pre, post := s[..i], s[i + 1..];
      assert RemoveFirst(s, [c]) == pre + post;
      assert s == pre + [c] + post;
      WithoutSkips(pre, post, c);
    }
  }

  /** Removing a one-character pattern round by round drops every copy of that character, and nothing else. */
  lemma {:induction false} StrippedCharIsWithout(s: string, c: char)
    ensures Stripped(s, [c]) == Without(s, c)
    decreases |s|
  {
    if IndexOf(s, [c]) == -1 {
      forall j | 0 <= j < |s| ensures s[j] != c {
        OccursChar(s, c, j);
      }
      WithoutNone(s, c);
    } else {
      StrippedCharIsWithout(RemoveFirst(s, [c]), c);
      RemoveFirstCharKeepsWithout(s, c);
    }
  }

  /* ---------------------------------------------------------------------- */
  /* `replace(/.*,/, "")`                                                    */
  /* ---------------------------------------------------------------------- */

  /** The characters that `.` in a regular expression does not match. */
  predicate IsLineTerminator(c: char) {
    c == '\n' || c == '\r' || c as int == 0x2028 || c as int == 0x2029
  }

  /** The end of the line that position `i` is on: the next line terminator, or the end of `s`. */
  function LineEnd(s: string, i: nat): (e: nat)
    requires i <= |s|
    ensures i <= e <= |s|
    ensures e < |s| ==> IsLineTerminator(s[e])
    ensures forall j :: i <= j < e ==> !IsLineTerminator(s[j])
    decreases |s| - i
  {
    if i == |s| || IsLineTerminator(s[i]) then i else LineEnd(s, i + 1)
  }

  /** The last comma in `s[i..e]`. */
  function LastComma(s: string, i: nat, e: nat): (r: Option<nat>)
    requires i <= e <= |s|
    ensures r.Some? ==> i <= r.value < e && s[r.value] == ',' && forall m :: r.value < m < e ==> s[m] != ','
    ensures r.None? ==> forall m :: i <= m < e ==> s[m] != ','
    decreases e
  {
    if e == i then None else if s[e - 1] == ',' then Some(e - 1) else LastComma(s, i, e - 1)
  }

  /** Every position from `i` up to the end of its line has the same line end. */
  lemma {:induction false} SameLine(s: string, i: nat, k: nat)
    requires i <= |s| && i <= k <= LineEnd(s, i)
    ensures LineEnd(s, k) == LineEnd(s, i)
    decreases k - i
  {
    if i < k {
      SameLine(s, i + 1, k);
    }
  }

  /**
   * `[a, b)` is what `/.*,/` matches when searched from position `i`: `a`
   * starts the first line at or after `i` that holds a comma, the range stays
   * on that line, and `b` is just past the line's last comma.
   */
  predicate IsCommaMatch(s: string, i: nat, a: nat, b: nat) {
    i <= a < b <= |s| && s[b - 1] == ','
    && (a == i || IsLineTerminator(s[a - 1]))
    && (forall m :: i <= m < a ==> s[m] != ',')
    && (forall m :: a <= m < b ==> !IsLineTerminator(s[m]))
    && (forall m :: b <= m < LineEnd(s, b) ==> s[m] != ',')
  }

  /**
   * The match of `/.*,/` searched from position `i`, as `[start, end)`. The
   * leftmost match begins at the start of the first line that holds a comma
   * (a start inside a line without a comma, or on a line terminator, cannot
   * reach a comma through `.`), and the greedy `.*` takes it to the last comma
   * of that line.
   */
  function CommaMatch(s: string, i: nat): (r: Option<(nat, nat)>)
    requires i <= |s|
    ensures r.None? <==> forall m :: i <= m < |s| ==> s[m] != ','
    ensures r.Some? ==> IsCommaMatch(s, i, r.value.0, r.value.1)
    decreases |s| - i
  {
    var e := LineEnd(s, i);
    match LastComma(s, i, e)
    case Some(j) =>
      SameLine(s, i, j + 1);
      Some((i, j + 1))
    case None => if e < |s| then CommaMatch(s, e + 1) else None
  }

  /** `s.replace(/.*,/, "")`: the first match removed. */
  function StripThroughComma(s: string): (r: string)
    ensures |r| <= |s|
    ensures (forall m :: 0 <= m < |s| ==> s[m] != ',') ==> r == s
  {
    match CommaMatch(s, 0)
    case None => s
    case Some((a, b)) => s[..a] + s[b..]
  }

  /**
   * With a comma in the string, the cut removes the first line that holds a
   * comma from its start through its last comma, and keeps the rest.
   */
  lemma CutMeaning(s: string) returns (a: nat, b: nat)
    requires exists m :: 0 <= m < |s| && s[m] == ','
    ensures IsCommaMatch(s, 0, a, b)
    ensures StripThroughComma(s) == s[..a] + s[b..]
  {
    a, b := CommaMatch(s, 0).value.0, CommaMatch(s, 0).value.1;
  }

  /** A string without a comma is left alone by the cut. */
  lemma NoCommaUnchanged(s: string)
    requires forall m :: 0 <= m < |s| ==> s[m] != ','
    ensures StripThroughComma(s) == s
  {
  }

  /**
   * On a single line (the usual data URL) the cut removes everything up to
   * and including the last comma, so no comma remains.
   */
  lemma SingleLineCut(s: string)
    requires forall m :: 0 <= m < |s| ==> !IsLineTerminator(s[m])
    requires exists m :: 0 <= m < |s| && s[m] == ','
    ensures exists j :: 0 <= j < |s| && s[j] == ',' && StripThroughComma(s) == s[j + 1..]
    ensures forall m :: 0 <= m < |StripThroughComma(s)| ==> StripThroughComma(s)[m] != ','
  {
    var a, b := CutMeaning(s);
    assert a == 0;
    assert LineEnd(s, 0) == |s|;
    SameLine(s, 0, b);
    assert s[..a] + s[b..] == s[b..];
    assert s[b - 1] == ',';
  }

  /* ---------------------------------------------------------------------- */
  /* The payload                                                             */
  /* ---------------------------------------------------------------------- */

  const MinPayload: nat := 255

  /**
   * `pastDate = imgBase64.replace(/.*,/, "").trim()`, rejected (the script
   * throws "图片大小异常" and gives up on the image) when it has fewer than 255
   * characters.
   */
  function PastDate(imgBase64: string): (r: Option<string>)
    ensures r.Some? ==> |r.value| >= MinPayload
    ensures r.None? <==> |Trim(StripThroughComma(imgBase64))| < MinPayload
    ensures r.Some? ==> r.value == Trim(StripThroughComma(imgBase64))
  {
    var pastDate := Trim(StripThroughComma(imgBase64));
    if |pastDate| < MinPayload then None else Some(pastDate)
  }

  /**
   * The inline-image branch of `Identify`: every `"\n"` and then every
   * `"%0D%0A"` is removed from a `data:image/` source, and the payload is cut
   * out of the result.
   */
  method InlinePayload(imgSrc: string) returns (pastDate: Option<string>)
    ensures pastDate == PastDate(Stripped(Stripped(imgSrc, "\n"), "%0D%0A"))
  {
    var imgBase64 := RemoveAll(imgSrc, "\n");
    imgBase64 := RemoveAll(imgBase64, "%0D%0A");
    pastDate := PastDate(imgBase64);
  }

  /** A payload cut from a string without `c` has no `c` either. */
  lemma PastDateKeepsAbsent(s: string, c: char)
    requires forall i :: 0 <= i < |s| ==> s[i] != c
    ensures PastDate(s).Some? ==> forall i :: 0 <= i < |PastDate(s).value| ==> PastDate(s).value[i] != c
  {
    var t := StripThroughComma(s);
    StripThroughCommaKeepsAbsent(s, c);
    var a, b := TrimIsSlice(t);
  }

  /** No line feed survives the clean-up of an inline image. */
  lemma InlinePayloadHasNoLineFeed(imgSrc: string)
    ensures var p := PastDate(Stripped(Stripped(imgSrc, "\n"), "%0D%0A"));
      p.Some? ==> forall i :: 0 <= i < |p.value| ==> p.value[i] != '\n'
  {
    var lf := Stripped(imgSrc, "\n");
    StrippedCharIsWithout(imgSrc, '\n');
    var crlf := Stripped(lf, "%0D%0A");
    StrippedKeepsAbsent(lf, "%0D%0A", '\n');
    PastDateKeepsAbsent(crlf, '\n');
  }

  /** Removing occurrences only takes characters away. */
  lemma {:induction false} StrippedKeepsAbsent(s: string, pat: string, c: char)
    requires pat != ""
    requires forall i :: 0 <= i < |s| ==> s[i] != c
    ensures forall i :: 0 <= i < |Stripped(s, pat)| ==> Stripped(s, pat)[i] != c
    decreases |s|
  {
    var k := IndexOf(s, pat);
    if k != -1 {
      var r := RemoveFirst(s, pat);
      assert r == s[..k] + s[k + |pat|..];
      forall i | 0 <= i < |r| ensures r[i] != c {
        if i < k {
          assert r[i] == s[i];
        } else {
          assert r[i] == s[i + |pat|];
        }
      }
      StrippedKeepsAbsent(r, pat, c);
    }
  }

  lemma StripThroughCommaKeepsAbsent(s: string, c: char)
    requires forall i :: 0 <= i < |s| ==> s[i] != c
    ensures forall i :: 0 <= i < |StripThroughComma(s)| ==> StripThroughComma(s)[i] != c
  {
    match CommaMatch(s, 0)
    case None =>
    case Some((a, b)) =>
      var r := s[..a] + s[b..];
      forall i | 0 <= i < |r| ensures r[i] != c {
        if i < a {
          assert r[i] == s[i];
        } else {
          assert r[i] == s[i - a + b];
        }
      }
  }
}
