/**
 The text of the document as `extract_pdf_ragntex` accumulates it: for each
 page, `text = " ".join([text, page_text.strip()])`, starting from the empty
 string. The text of a page is an input (it comes from `page.get_text()`).
 */
module PageText {
  import opened Seqs

  /** Python's `str.isspace` on one character: the characters `str.strip()`
      removes when called without arguments. */
  predicate IsSpace(c: char)
  {
    var n := c as int;
    || (0x09 <= n <= 0x0D) || (0x1C <= n <= 0x20) || n == 0x85 || n == 0xA0
    || n == 0x1680 || (0x2000 <= n <= 0x200A) || n == 0x2028 || n == 0x2029
    || n == 0x202F || n == 0x205F || n == 0x3000
  }

  predicate AllSpace(s: string)
  {
    forall i :: 0 <= i < |s| ==> IsSpace(s[i])
  }

  /** Neither starts nor ends with whitespace. */
  predicate Trimmed(s: string)
  {
    |s| == 0 || (!IsSpace(s[0]) && !IsSpace(s[|s| - 1]))
  }

  /** The index of the first non-whitespace character at or after `i`, or
      the length when there is none. */
  function SkipSpaces(s: string, i: nat): (k: nat)
    requires i <= |s|
    ensures i <= k <= |s|
    ensures forall j :: i <= j < k ==> IsSpace(s[j])
    ensures k < |s| ==> !IsSpace(s[k])
    decreases |s| - i
  {
    if i < |s| && IsSpace(s[i]) then SkipSpaces(s, i + 1) else i
  }

  /** Moving `j` left past whitespace, but not below `lo`. */
  function SkipSpacesBack(s: string, lo: nat, j: nat): (e: nat)
    requires lo <= j <= |s|
    ensures lo <= e <= j
    ensures forall m :: e <= m < j ==> IsSpace(s[m])
    ensures e > lo ==> !IsSpace(s[e - 1])
  {
    if j > lo && IsSpace(s[j - 1]) then SkipSpacesBack(s, lo, j - 1) else j
  }

  /** `s.strip()`: skip whitespace from the left, then from the right down
      to where the left scan stopped, and keep what lies between. */
  function Strip(s: string): (r: string)
    ensures Trimmed(r)
    ensures exists a :: 0 <= a <= |s| - |r| && s[a..a + |r|] == r && AllSpace(s[..a]) && AllSpace(s[a + |r|..])
  {
    var a := SkipSpaces(s, 0);
    var e := SkipSpacesBack(s, a, |s|);
    var r := s[a..e];
    assert AllSpace(s[..a]) && AllSpace(s[e..]) by {
      assert forall j :: 0 <= j < a ==> s[..a][j] == s[j];
      assert forall j :: 0 <= j < |s| - e ==> s[e..][j] == s[e + j];
    }
    assert |r| > 0 ==> r[0] == s[a] && r[|r| - 1] == s[e - 1];
    r
  }

  /** Any way of writing `s` as whitespace, a trimmed middle and whitespace
      has `s.strip()` as its middle: the contract of `Strip` determines it. */
  lemma StripUnique(pre: string, mid: string, post: string)
    requires AllSpace(pre) && Trimmed(mid) && AllSpace(post)
    ensures Strip(pre + mid + post) == mid
  {
    var s := pre + mid + post;
    var p, q := |pre|, |pre| + |mid|;
    assert forall j :: 0 <= j < p ==> s[j] == pre[j];
    assert forall j :: q <= j < |s| ==> s[j] == post[j - q];
    var a := SkipSpaces(s, 0);
    var e := SkipSpacesBack(s, a, |s|);
    if |mid| == 0 {
      assert forall j :: 0 <= j < |s| ==> IsSpace(s[j]);
      assert a == |s|;
    } else {
      assert s[p] == mid[0] && s[q - 1] == mid[|mid| - 1];
      assert a == p;
      assert e == q;
      assert s[a..e] == mid;
    }
  }

  /** Stripping twice is stripping once. */
  lemma StripIdempotent(s: string)
    ensures Strip(Strip(s)) == Strip(s)
  {
    StripUnique([], Strip(s), []);
    assert [] + Strip(s) + [] == Strip(s);
  }

  /** `" ".join([text, part])` applied to each part in turn, starting
      from the empty string. */
  function Join(parts: seq<string>): (text: string)
    ensures |text| >= |parts|
    ensures |parts| > 0 ==> text[0] == ' '
  {
    if |parts| == 0 then ""
    else
      var prev := Join(parts[..|parts| - 1]);
      var text := prev + " " + parts[|parts| - 1];
      assert |prev| > 0 ==> text[0] == prev[0];
      text
  }

  /** The last part is appended last. */
  lemma JoinLast(front: seq<string>, part: string)
    ensures Join(front + [part]) == Join(front) + (" " + part)
  {
    assert (front + [part])[..|front|] == front;
  }

  /** Joining a concatenation is joining each half and concatenating: the
      parts contribute independently and in order. */
  lemma {:induction false} JoinAppend(xs: seq<string>, ys: seq<string>)
    ensures Join(xs + ys) == Join(xs) + Join(ys)
    decreases |ys|
  {
    if |ys| == 0 {
      assert xs + ys == xs;
    } else {
      var n := |ys| - 1;
      var front, part := ys[..n], ys[n];
      JoinAppend(xs, front);
      assert ys == front + [part];
      assert xs + ys == (xs + front) + [part];
      JoinLast(xs + front, part);
      JoinLast(front, part);
    }
  }

  /** Reference reading: the joined text is the concatenation of one
      segment per part, a space followed by the part. */
  lemma {:induction false} JoinFlat(parts: seq<string>)
    ensures Join(parts) == Flatten(seq(|parts|, i requires 0 <= i < |parts| => " " + parts[i]))
  {
    var segs := seq(|parts|, i requires 0 <= i < |parts| => " " + parts[i]);
    if |parts| > 0 {
      var n := |parts| - 1;
      JoinFlat(parts[..n]);
      assert segs[..n] == seq(n, i requires 0 <= i < n => " " + parts[..n][i]);
    }
  }

  /** The page texts after `strip()`. */
  function StrippedPages(pages: seq<string>): (ss: seq<string>)
    ensures |ss| == |pages| && forall i :: 0 <= i < |pages| ==> ss[i] == Strip(pages[i])
  {
    seq(|pages|, i requires 0 <= i < |pages| => Strip(pages[i]))
  }

  /** The text part of the page loop of `extract_pdf_ragntex`: after every
      page, the text so far, a space, and the stripped page text. */
  method AccumulateText(pages: seq<string>) returns (text: string)
    ensures text == Join(StrippedPages(pages))
    ensures |text| >= |pages| && (|pages| > 0 ==> text[0] == ' ')
  {
    ghost var ss := StrippedPages(pages);
    text := "";
    for n := 0 to |pages|
      invariant text == Join(ss[..n])
    {
      var part := Strip(pages[n]);
      JoinLast(ss[..n], part);
      assert ss[..n + 1] == ss[..n] + [part];
      text := text + " " + part;
    }
    assert ss[..|pages|] == ss;
  }
}
