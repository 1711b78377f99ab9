/*
 * The image-comment filter: a comment or repost whose text, once stripped of
 * surrounding whitespace, opens with the image marker carries no words and
 * is left out of both the counting and the tree.
 */
module TextFilter {
  import opened Records

  /** The marker U+56FE U+7247 U+8BC4 U+8BBA ("image comment"). */
  const ImageMarker: string := "\U{56FE}\U{7247}\U{8BC4}\U{8BBA}"

  /** The characters for which Python's `str.isspace` holds. */
  predicate IsSpace(ch: char) {
    || ('\t' <= ch <= '\r')
    || ('\U{1C}' <= ch <= ' ')
    || ch == '\U{85}' || ch == '\U{A0}' || ch == '\U{1680}'
    || ('\U{2000}' <= ch <= '\U{200A}')
    || ch == '\U{2028}' || ch == '\U{2029}' || ch == '\U{202F}' || ch == '\U{205F}' || ch == '\U{3000}'
  }

  /** `s` without its leading whitespace. */
  function TrimLeft(s: string): string {
    if s != [] && IsSpace(s[0]) then TrimLeft(s[1..]) else s
  }

  /** `s` without its trailing whitespace. */
  function TrimRight(s: string): string {
    if s != [] && IsSpace(s[|s| - 1]) then TrimRight(s[..|s| - 1]) else s
  }

  /** TrimLeft drops exactly the leading run of whitespace: the longest suffix that does not open with a space. */
  lemma {:induction false} TrimLeftSpec(s: string)
    ensures |TrimLeft(s)| <= |s| && TrimLeft(s) == s[|s| - |TrimLeft(s)|..]
    ensures TrimLeft(s) == [] || !IsSpace(TrimLeft(s)[0])
    ensures forall i :: 0 <= i < |s| - |TrimLeft(s)| ==> IsSpace(s[i])
  {
    if s != [] && IsSpace(s[0]) {
      var t := s[1..];
      TrimLeftSpec(t);
      var r := TrimLeft(t);
      assert TrimLeft(s) == r;
      assert t[|t| - |r|..] == s[|s| - |r|..];
      forall i | 0 <= i < |s| - |r| ensures IsSpace(s[i]) {
        if i > 0 {
          assert s[i] == t[i - 1];
        }
      }
    }
  }

  /** TrimRight drops exactly the trailing run of whitespace: the longest prefix that does not close with a space. */
  lemma {:induction false} TrimRightSpec(s: string)
    ensures |TrimRight(s)| <= |s| && TrimRight(s) == s[..|TrimRight(s)|]
    ensures TrimRight(s) == [] || !IsSpace(TrimRight(s)[|TrimRight(s)| - 1])
    ensures forall i :: |TrimRight(s)| <= i < |s| ==> IsSpace(s[i])
  {
    if s != [] && IsSpace(s[|s| - 1]) {
      TrimRightSpec(s[..|s| - 1]);
    }
  }

  /**
   * Python's `str.strip()` with no argument: the middle of `s` that neither
   * starts nor ends with whitespace, everything around it being whitespace.
   */
  function Strip(s: string): (r: string)
    ensures r == [] || (!IsSpace(r[0]) && !IsSpace(r[|r| - 1]))
    ensures var i := |s| - |TrimLeft(s)|;
      && 0 <= i && i + |r| <= |s| && r == s[i..i + |r|]
      && (forall j :: 0 <= j < i ==> IsSpace(s[j])) && (forall j :: i + |r| <= j < |s| ==> IsSpace(s[j]))
  {
    var l := TrimLeft(s);
    TrimLeftSpec(s);
    TrimRightSpec(l);
    var i := |s| - |l|;
    assert TrimRight(l) == s[i..i + |TrimRight(l)|];
    TrimRight(l)
  }

  /** `is_image_comment`: a string whose stripped text starts with the marker; never a non-string. */
  predicate IsImageComment(t: TextValue): (b: bool)
    ensures b ==> t.Str? && |ImageMarker| <= |t.s|
  {
    t.Str? && ImageMarker <= Strip(t.s)
  }

  lemma MarkerHasNoSpace()
    ensures forall i :: 0 <= i < |ImageMarker| ==> !IsSpace(ImageMarker[i])
  {
  }

  /** The trailing strip never cuts into a leading marker. */
  lemma MarkerSurvivesTrimRight(l: string)
    ensures ImageMarker <= TrimRight(l) <==> ImageMarker <= l
  {
    var r := TrimRight(l);
    TrimRightSpec(l);
    if ImageMarker <= l {
      assert !IsSpace(l[3]) by {
        assert l[3] == ImageMarker[3];
        MarkerHasNoSpace();
      }
      assert ImageMarker == l[..4] == r[..4];
    }
    if ImageMarker <= r {
      assert ImageMarker == r[..4] == l[..4];
    }
  }

  /** Only leading whitespace matters: the trailing strip can never cut into the marker. */
  lemma ImageIffTrimmedPrefix(s: string)
    ensures IsImageComment(Str(s)) <==> ImageMarker <= TrimLeft(s)
  {
    MarkerSurvivesTrimRight(TrimLeft(s));
  }

  /** Whitespace put in front of a text never changes whether it is an image comment. */
  lemma {:induction false} LeadingWhitespaceIgnored(w: string, s: string)
    requires forall i :: 0 <= i < |w| ==> IsSpace(w[i])
    ensures IsImageComment(Str(w + s)) == IsImageComment(Str(s))
  {
    TrimLeftSkipsWhitespace(w, s);
    ImageIffTrimmedPrefix(w + s);
    ImageIffTrimmedPrefix(s);
  }

  lemma {:induction false} TrimLeftSkipsWhitespace(w: string, s: string)
    requires forall i :: 0 <= i < |w| ==> IsSpace(w[i])
    ensures TrimLeft(w + s) == TrimLeft(s)
  {
    if w == [] {
      assert w + s == s;
    } else {
      assert (w + s)[0] == w[0];
      assert (w + s)[1..] == w[1..] + s;
      TrimLeftSkipsWhitespace(w[1..], s);
    }
  }

  /** Any text that opens with the marker is an image comment, whatever follows. */
  lemma MarkerOpensImage(rest: string)
    ensures IsImageComment(Str(ImageMarker + rest))
  {
    var s := ImageMarker + rest;
    assert s[0] == ImageMarker[0];
    assert TrimLeft(s) == s;
    ImageIffTrimmedPrefix(s);
  }
}
