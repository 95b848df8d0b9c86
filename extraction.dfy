/**
 * Pulling image addresses out of the scraped markup: the regular expression
 * /"(https.*?images.*?)"/ as a JavaScript engine runs it (non-global, no
 * flags, so `.` is any code unit but a line terminator), and the reduce that
 * keeps the first capture group of every fragment that matches.
 */
module Extraction {
  import opened Wrappers
  import opened JsValues

  const Quote: CodeUnit := '"' as int

  const Https: Str := Ascii("https")

  const Images: Str := Ascii("images")

  /** What `.` will not match: LF, CR, LINE SEPARATOR and PARAGRAPH SEPARATOR. */
  predicate IsLineTerminator(u: int) {
    u == 0x0A || u == 0x0D || u == 0x2028 || u == 0x2029
  }

  /** No line terminator lies in s[from..to], so `.*?` can run across it. */
  predicate OnOneLine(s: Str, from: nat, to: nat) {
    forall m :: from <= m < to && m < |s| ==> !IsLineTerminator(s[m])
  }

  /** The word w occurs in s at position p. */
  predicate HasAt(s: Str, p: int, w: Str) {
    0 <= p && p + |w| <= |s| && s[p..p + |w|] == w
  }

  // ------------------------------------------------------- reference meaning

  /**
   * The pattern matches s with its opening quote at i, the "images" it
   * needs at j and its closing quote at k; group 1 is then s[i + 1..k].
   */
  predicate IsMatch(s: Str, i: int, j: int, k: int) {
    0 <= i && i + 6 <= j && j + 6 <= k < |s| &&
    s[i] == Quote && HasAt(s, i + 1, Https) && HasAt(s, j, Images) && s[k] == Quote &&
    OnOneLine(s, i + 1, k)
  }

  /** (i, j, k) comes no later than (i2, j2, k2) in the order a backtracking matcher tries them. */
  predicate TriedNoLater(i: int, j: int, k: int, i2: int, j2: int, k2: int) {
    i < i2 || (i == i2 && (j < j2 || (j == j2 && k <= k2)))
  }

  /**
   * The match the engine reports: the leftmost start, and for it the
   * earliest "images" and then the earliest closing quote, since both
   * `.*?` are lazy.
   */
  ghost predicate IsReportedMatch(s: Str, i: int, j: int, k: int) {
    IsMatch(s, i, j, k) &&
    forall i2, j2, k2 :: IsMatch(s, i2, j2, k2) ==> TriedNoLater(i, j, k, i2, j2, k2)
  }

  // ------------------------------------------------------------- the matcher

  /** The first quote at or after `from` that the same line reaches. */
  function FindClose(s: Str, from: nat): (r: Option<nat>)
    decreases |s| - from
    ensures r.Some? ==> from <= r.value < |s| && s[r.value] == Quote && OnOneLine(s, from, r.value)
    ensures r.Some? ==> forall m :: from <= m < r.value ==> s[m] != Quote
    ensures r.None? ==> forall k :: from <= k < |s| && s[k] == Quote ==> !OnOneLine(s, from, k)
  {
    if from >= |s| then None
    else if s[from] == Quote then Some(from)
    else if IsLineTerminator(s[from]) then None
    else FindClose(s, from + 1)
  }

  /** The first "images" at or after `from` that the same line reaches. */
  function FindImages(s: Str, from: nat): (r: Option<nat>)
    decreases |s| - from
    ensures r.Some? ==> from <= r.value && HasAt(s, r.value, Images) && OnOneLine(s, from, r.value)
    ensures r.Some? ==> forall m :: from <= m < r.value ==> !HasAt(s, m, Images)
    ensures r.None? ==> forall j :: from <= j && HasAt(s, j, Images) ==> !OnOneLine(s, from, j)
  {
    if from + |Images| > |s| then None
    else if s[from..from + |Images|] == Images then Some(from)
    else if IsLineTerminator(s[from]) then None
    else FindImages(s, from + 1)
  }

  /** Neither literal of the pattern holds a line terminator. */
  lemma LiteralsOnOneLine()
    ensures forall m :: 0 <= m < |Https| ==> !IsLineTerminator(Https[m])
    ensures forall m :: 0 <= m < |Images| ==> !IsLineTerminator(Images[m])
  {
  }

  /** Where a word free of line terminators occurs, the line goes on across it. */
  lemma WordOnOneLine(s: Str, p: nat, w: Str)
    requires HasAt(s, p, w)
    requires forall m :: 0 <= m < |w| ==> !IsLineTerminator(w[m])
    ensures OnOneLine(s, p, p + |w|)
  {
    forall m | p <= m < p + |w| ensures !IsLineTerminator(s[m]) {
      assert s[m] == s[p..p + |w|][m - p];
    }
  }

  /**
   * Tried with its opening quote at i, the pattern stands or falls with the
   * first "images" on the line: when no quote closes after it, none closes
   * after a later one either.
   */
  lemma FirstImagesDecides(s: Str, i: nat)
    requires i < |s| && s[i] == Quote && HasAt(s, i + 1, Https)
    ensures FindImages(s, i + 6).None? ==> forall j2, k2 :: !IsMatch(s, i, j2, k2)
    ensures FindImages(s, i + 6).Some? ==>
              var j := FindImages(s, i + 6).value;
              match FindClose(s, j + 6)
              case None => forall j2, k2 :: !IsMatch(s, i, j2, k2)
              case Some(k) =>
                IsMatch(s, i, j, k) &&
                forall j2, k2 :: IsMatch(s, i, j2, k2) ==> TriedNoLater(i, j, k, i, j2, k2)
  {
    forall j2, k2 | IsMatch(s, i, j2, k2)
      ensures FindImages(s, i + 6).Some?
      ensures FindClose(s, FindImages(s, i + 6).value + 6).Some?
      ensures TriedNoLater(i, FindImages(s, i + 6).value, FindClose(s, FindImages(s, i + 6).value + 6).value, i, j2, k2)
    {
      FirstImagesComplete(s, i, j2, k2);
    }
    if FindImages(s, i + 6).Some? && FindClose(s, FindImages(s, i + 6).value + 6).Some? {
      FirstImagesSound(s, i);
    }
  }

  /** Any match starting at i lets the scanner find an "images" and a closing quote no later than its own. */
  lemma FirstImagesComplete(s: Str, i: nat, j2: int, k2: int)
    requires IsMatch(s, i, j2, k2)
    ensures FindImages(s, i + 6).Some? && FindImages(s, i + 6).value <= j2
    ensures FindClose(s, FindImages(s, i + 6).value + 6).Some?
    ensures FindClose(s, FindImages(s, i + 6).value + 6).value <= k2
  {
    assert OnOneLine(s, i + 6, j2);
    var j := FindImages(s, i + 6).value;
    assert s[k2] == Quote && OnOneLine(s, j + 6, k2);
  }

  /** What the scanner finds after an opening quote and "https" is a match. */
  lemma FirstImagesSound(s: Str, i: nat)
    requires i < |s| && s[i] == Quote && HasAt(s, i + 1, Https)
    requires FindImages(s, i + 6).Some? && FindClose(s, FindImages(s, i + 6).value + 6).Some?
    ensures IsMatch(s, i, FindImages(s, i + 6).value, FindClose(s, FindImages(s, i + 6).value + 6).value)
  {
    LiteralsOnOneLine();
    var j := FindImages(s, i + 6).value;
    var k := FindClose(s, j + 6).value;
    WordOnOneLine(s, i + 1, Https);
    WordOnOneLine(s, j, Images);
    assert OnOneLine(s, i + 1, k);
  }

  /**
   * The pattern tried with its opening quote at i: the positions of
   * "images" and of the closing quote, or None when no match starts there.
   */
  function MatchAt(s: Str, i: nat): (r: Option<(nat, nat)>)
    requires i < |s|
    ensures r.Some? ==> IsMatch(s, i, r.value.0, r.value.1)
    ensures r.Some? ==> forall j2, k2 :: IsMatch(s, i, j2, k2) ==> TriedNoLater(i, r.value.0, r.value.1, i, j2, k2)
    ensures r.None? ==> forall j2, k2 :: !IsMatch(s, i, j2, k2)
  {
    if s[i] == Quote && HasAt(s, i + 1, Https) then
      FirstImagesDecides(s, i);
      match FindImages(s, i + 6)
      case None => None
      case Some(j) =>
        match FindClose(s, j + 6)
        case None => None
        case Some(k) => Some((j, k))
    else None
  }

  /** The reported match in s at or after `from`. */
  function FirstMatchFrom(s: Str, from: nat): (r: Option<(nat, nat, nat)>)
    decreases |s| - from
    ensures r.Some? ==> IsMatch(s, r.value.0, r.value.1, r.value.2)
    ensures r.Some? ==> forall i2, j2, k2 :: from <= i2 && IsMatch(s, i2, j2, k2) ==>
                          TriedNoLater(r.value.0, r.value.1, r.value.2, i2, j2, k2)
    ensures r.None? ==> forall i2, j2, k2 :: from <= i2 ==> !IsMatch(s, i2, j2, k2)
  {
    if from >= |s| then None
    else match MatchAt(s, from)
      case Some((j, k)) => Some((from, j, k))
      case None => FirstMatchFrom(s, from + 1)
  }

  /** The positions of the match the engine reports for s, if any. */
  function FirstMatch(s: Str): (r: Option<(nat, nat, nat)>)
    ensures r.Some? ==> IsReportedMatch(s, r.value.0, r.value.1, r.value.2)
    ensures r.None? <==> forall i, j, k :: !IsMatch(s, i, j, k)
  {
    FirstMatchFrom(s, 0)
  }

  /**
   * `fragment.match(/"(https.*?images.*?)"/)` read through `match[1]`:
   * group 1 of the reported match, or None where `match` gives null.
   */
  function Capture(fragment: Str): (r: Option<Str>)
    ensures r.None? <==> forall i, j, k :: !IsMatch(fragment, i, j, k)
  {
    match FirstMatch(fragment)
    case None => None
    case Some((i, j, k)) => Some(fragment[i + 1..k])
  }

  /** The quoted address the example below is about. */
  function QuotedExample(): (s: Str)
    ensures |s| == 16 && s[0] == Quote && s[15] == Quote
    ensures HasAt(s, 1, Https) && HasAt(s, 9, Images)
    ensures s[6] != Images[0] && s[7] != Images[0] && s[8] != Images[0]
    ensures s[1..15] == Ascii("https://images")
  {
    var s := Ascii("\"https://images\"");
    assert s[1..6] == Https by {
      forall m | 0 <= m < 5 ensures s[1..6][m] == Https[m] {
        assert "\"https://images\""[1 + m] == "https"[m];
      }
    }
    assert s[9..15] == Images by {
      forall m | 0 <= m < 6 ensures s[9..15][m] == Images[m] {
        assert "\"https://images\""[9 + m] == "images"[m];
      }
    }
    assert s[1..15] == Ascii("https://images") by {
      forall m | 0 <= m < 14 ensures s[1..15][m] == Ascii("https://images")[m] {
        assert "\"https://images\""[1 + m] == "https://images"[m];
      }
    }
    s
  }

  /** For example, a quoted address on an images host is captured without its quotes. */
  lemma CaptureExample()
    ensures Capture(QuotedExample()) == Some(Ascii("https://images"))
  {
    var s := QuotedExample();
    assert FindImages(s, 6) == Some(9) by {
      assert FindImages(s, 9) == Some(9);
    }
    assert FindClose(s, 15) == Some(15);
    assert MatchAt(s, 0) == Some((9, 15));
    assert FirstMatch(s) == Some((0, 9, 15));
  }

  /**
   * What every captured address looks like: it starts with "https", holds
   * "images" after that, and runs over no line terminator.
   */
  ghost predicate IsAddressShaped(u: Str) {
    HasAt(u, 0, Https) &&
    (exists p :: |Https| <= p && HasAt(u, p, Images)) &&
    forall m :: 0 <= m < |u| ==> !IsLineTerminator(u[m])
  }

  /** In its fragment, a captured address sits between two quotes, at the reported match. */
  lemma CaptureInPlace(fragment: Str)
    requires Capture(fragment).Some?
    ensures FirstMatch(fragment).Some?
    ensures var (i, j, k) := FirstMatch(fragment).value;
            IsReportedMatch(fragment, i, j, k) &&
            fragment[i] == Quote && fragment[k] == Quote && Capture(fragment).value == fragment[i + 1..k]
  {
  }

  /**
   * A captured address starts with "https", holds "images" after that and
   * crosses no line end.
   */
  lemma CaptureShape(fragment: Str)
    requires Capture(fragment).Some?
    ensures IsAddressShaped(Capture(fragment).value)
  {
    var (i, j, k) := FirstMatch(fragment).value;
    assert IsMatch(fragment, i, j, k);
    var u := fragment[i + 1..k];
    HasAtSlice(fragment, i + 1, k, i + 1, Https);
    HasAtSlice(fragment, i + 1, k, j, Images);
    assert |Https| <= j - (i + 1);
    forall m | 0 <= m < |u| ensures !IsLineTerminator(u[m]) {
      assert u[m] == fragment[i + 1 + m];
    }
  }

  /** A word found inside a slice is found in the slice, shifted. */
  lemma HasAtSlice(s: Str, lo: nat, hi: nat, p: int, w: Str)
    requires lo <= p && p + |w| <= hi <= |s| && HasAt(s, p, w)
    ensures HasAt(s[lo..hi], p - lo, w)
  {
    var t := s[lo..hi];
    forall m | 0 <= m < |w| ensures t[p - lo + m] == w[m] {
      assert t[p - lo + m] == s[p + m];
      assert s[p..p + |w|][m] == s[p + m];
    }
    assert t[p - lo..p - lo + |w|] == w;
  }

  // ------------------------------------------------------------- the reduce

  /**
   * The reduce at the heart of the extraction, as a left fold: every
   * fragment, in order, contributes its capture when it has one and
   * nothing otherwise.
   */
  function Extract(fragments: seq<Str>): (urls: seq<Str>)
    ensures |urls| <= |fragments|
  {
    if fragments == [] then []
    else
      var urls := Extract(fragments[..|fragments| - 1]);
      match Capture(fragments[|fragments| - 1])
      case None => urls
      case Some(url) => urls + [url]
  }

  /**
   * The extraction step: `imageUrls` starts empty and is concatenated with
   * the reduce's accumulator, which pushes each fragment's capture in turn.
   */
  method ExtractImageUrls(result: seq<Str>) returns (imageUrls: seq<Str>)
    ensures imageUrls == Extract(result)
  {
    imageUrls := [];
    var urls: seq<Str> := [];
    var n := 0;
    while n < |result|
      invariant 0 <= n <= |result|
      invariant urls == Extract(result[..n])
    {
      var found := Capture(result[n]);
      if found.Some? {
        urls := urls + [found.value];
      }
      assert result[..n + 1][..n] == result[..n];
      n := n + 1;
    }
    assert result[..n] == result;
    imageUrls := imageUrls + urls;
  }

  // ------------------------------------------------------------------ lemmas

  /** Extraction works fragment by fragment: the output for a + b is the output for a, then for b. */
  lemma {:induction false} ExtractAppend(a: seq<Str>, b: seq<Str>)
    decreases |b|
    ensures Extract(a + b) == Extract(a) + Extract(b)
  {
    if b == [] {
      assert a + b == a;
    } else {
      var b' := b[..|b| - 1];
      ExtractAppend(a, b');
      assert (a + b)[..|a + b| - 1] == a + b';
      assert (a + b)[|a + b| - 1] == b[|b| - 1];
    }
  }

  /** One fragment yields its capture, or nothing, and never fails. */
  lemma ExtractOne(f: Str)
    ensures Extract([f]) == if Capture(f).Some? then [Capture(f).value] else []
  {
    assert [f][..0] == [];
  }

  /**
   * A fragment without a match is skipped and nothing else changes: the
   * fragments around it give what they would give without it.
   */
  lemma SkipsNonMatching(before: seq<Str>, f: Str, after: seq<Str>)
    requires Capture(f).None?
    ensures Extract(before + [f] + after) == Extract(before) + Extract(after)
  {
    ExtractAppend(before + [f], after);
    ExtractAppend(before, [f]);
    ExtractOne(f);
    assert Extract(before) + [] == Extract(before);
  }

  /**
   * Duplicates are kept: a fragment whose capture is u, repeated, gives u
   * as many times as it appears.
   */
  lemma {:induction false} NoDeduplication(f: Str, times: nat)
    requires Capture(f).Some?
    ensures Extract(seq(times, _ => f)) == seq(times, _ => Capture(f).value)
  {
    if times > 0 {
      NoDeduplication(f, times - 1);
      assert seq(times, _ => f) == seq(times - 1, _ => f) + [f];
      ExtractAppend(seq(times - 1, _ => f), [f]);
      ExtractOne(f);
      assert seq(times, _ => Capture(f).value) == seq(times - 1, _ => Capture(f).value) + [Capture(f).value];
    }
  }

  /** The indices of the fragments that match, in increasing order. */
  ghost function Origins(fragments: seq<Str>): (r: seq<nat>)
    ensures forall n :: 0 <= n < |r| ==> r[n] < |fragments|
    ensures forall n, m :: 0 <= n < m < |r| ==> r[n] < r[m]
  {
    if fragments == [] then []
    else
      var prior := Origins(fragments[..|fragments| - 1]);
      if Capture(fragments[|fragments| - 1]).Some? then prior + [|fragments| - 1] else prior
  }

  /**
   * Order is kept: the n-th address is the capture of the n-th matching
   * fragment.
   */
  lemma {:induction false} ExtractOrigins(fragments: seq<Str>)
    decreases |fragments|
    ensures |Origins(fragments)| == |Extract(fragments)|
    ensures forall n :: 0 <= n < |Origins(fragments)| ==>
              Capture(fragments[Origins(fragments)[n]]) == Some(Extract(fragments)[n])
  {
    if fragments != [] {
      var last := |fragments| - 1;
      var init := fragments[..last];
      ExtractOrigins(init);
      var o, e := Origins(init), Extract(init);
      forall n | 0 <= n < |o|
        ensures Capture(fragments[o[n]]) == Some(e[n])
      {
        assert fragments[o[n]] == init[o[n]];
      }
    }
  }

  /** No match is lost: a fragment is an origin exactly when it matches. */
  lemma {:induction false} OriginsComplete(fragments: seq<Str>)
    decreases |fragments|
    ensures forall x :: 0 <= x < |fragments| ==> (x in Origins(fragments) <==> Capture(fragments[x]).Some?)
  {
    if fragments != [] {
      var last := |fragments| - 1;
      var init := fragments[..last];
      OriginsComplete(init);
      forall x | 0 <= x < last
        ensures x in Origins(fragments) <==> Capture(fragments[x]).Some?
      {
        assert fragments[x] == init[x];
      }
    }
  }

  /** Every extracted address has the shape the pattern imposes. */
  lemma {:induction false} ExtractShapes(fragments: seq<Str>)
    ensures forall n :: 0 <= n < |Extract(fragments)| ==> IsAddressShaped(Extract(fragments)[n])
  {
    ExtractOrigins(fragments);
    forall n | 0 <= n < |Extract(fragments)|
      ensures IsAddressShaped(Extract(fragments)[n])
    {
      CaptureShape(fragments[Origins(fragments)[n]]);
    }
  }
}
