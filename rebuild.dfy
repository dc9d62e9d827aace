/**
 * The post-processing of the saved map page: the regular-expression
 * lookups that cut the head, the body and the map script out of the page,
 * the filter that drops the page's own viewport and charset metas, and the
 * assembly of the rebuilt page, section after section in a fixed order.
 */
module Rebuild {
  import opened Wrappers
  import opened PyStr

  // ---------------------------------------------------------------------
  // Locating the parts of the saved page
  // ---------------------------------------------------------------------

  /** The first occurrence of w in s at or after index k. */
  function FindFrom(s: string, w: string, k: nat): (r: Option<nat>)
    ensures r.Some? ==> k <= r.value && OccursAt(s, w, r.value)
    ensures r.Some? ==> forall j: nat :: k <= j < r.value ==> !OccursAt(s, w, j)
    ensures r.None? ==> forall j: nat :: k <= j ==> !OccursAt(s, w, j)
    decreases |s| - k
  {
    if k + |w| > |s| then None
    else if OccursAt(s, w, k) then Some(k)
    else FindFrom(s, w, k + 1)
  }

  /** The end of the run of whitespace that starts at k: the greedy `\s*`. */
  function SkipSpace(s: string, k: nat): (e: nat)
    ensures k <= e && (k <= |s| ==> e <= |s|)
    ensures forall m :: k <= m < e ==> m < |s| && IsSpace(s[m])
    ensures e < |s| ==> !IsSpace(s[e])
    decreases |s| - k
  {
    if k < |s| && IsSpace(s[k]) then SkipSpace(s, k + 1) else k
  }

  /** A pattern `lead \s* open (.*?) close` with the DOTALL flag, where the
      `\s*` is present only when `skipSpace` holds. */
  datatype Pattern = Pattern(lead: string, skipSpace: bool, open: string, close: string)

  /** `<head>(.*?)</head>` */
  const HeadPattern: Pattern := Pattern("", false, "<head>", "</head>")
  /** `<body>(.*?)</body>` */
  const BodyPattern: Pattern := Pattern("", false, "<body>", "</body>")
  /** `</body>\s*<script>(.*?)</script>` */
  const MapScriptPattern: Pattern := Pattern("</body>", true, "<script>", "</script>")

  /** A match: the index where it begins, and the indices where its
      captured group starts and stops. */
  datatype Match = Match(at: nat, start: nat, stop: nat)

  /** Where the text matched by `\s* open` starts, for a match starting at i. */
  function OpenAt(s: string, p: Pattern, i: nat): nat {
    if p.skipSpace then SkipSpace(s, i + |p.lead|) else i + |p.lead|
  }

  /** The pieces of p line up in s with the lead at i, the opening text at
      k and a closing text at j: between the lead and the opening text
      there is only whitespace when p has `\s*`, and nothing otherwise. */
  predicate Layout(s: string, p: Pattern, i: nat, k: nat, j: nat) {
    && OccursAt(s, p.lead, i) && i + |p.lead| <= k && OccursAt(s, p.open, k)
    && (if p.skipSpace then forall m :: i + |p.lead| <= m < k ==> IsSpace(s[m]) else k == i + |p.lead|)
    && k + |p.open| <= j && OccursAt(s, p.close, j)
  }

  /** No closing text of p starts in s at an index in [a, b). */
  predicate NoCloseIn(s: string, p: Pattern, a: nat, b: nat) {
    forall n: nat :: a <= n < b ==> !OccursAt(s, p.close, n)
  }

  /** The match of p that starts at index i, if there is one: the lead at
      i, the whitespace, the opening text, then the group up to the first
      closing text after it. */
  function MatchAt(s: string, p: Pattern, i: nat): (r: Option<Match>)
    ensures r.Some? ==> r.value.at == i && r.value.start >= |p.open|
                        && Layout(s, p, i, r.value.start - |p.open|, r.value.stop)
                        && NoCloseIn(s, p, r.value.start, r.value.stop)
  {
    if OccursAt(s, p.lead, i) && OccursAt(s, p.open, OpenAt(s, p, i)) then
      var start := OpenAt(s, p, i) + |p.open|;
      match FindFrom(s, p.close, start)
      case Some(stop) => Some(Match(i, start, stop))
      case None => None
    else None
  }

  /** Every layout of the pieces is found: when the lead, the whitespace,
      the opening text and a closing text line up from i on, a match starts
      at i, its group starts right after that opening text and it stops at
      the first closing text, no later than j. The opening text must not
      start with whitespace when p has `\s*`, as holds for the script
      pattern. */
  lemma MatchAtComplete(s: string, p: Pattern, i: nat, k: nat, j: nat)
    requires p.skipSpace ==> |p.open| > 0 && !IsSpace(p.open[0])
    requires Layout(s, p, i, k, j)
    ensures MatchAt(s, p, i).Some?
    ensures MatchAt(s, p, i).value.start == k + |p.open|
    ensures MatchAt(s, p, i).value.stop <= j
  {
    if p.skipSpace {
      assert s[k] == s[k..k + |p.open|][0];
      SkipSpaceEnds(s, i + |p.lead|, k);
    }
    assert OpenAt(s, p, i) == k;
    var f := FindFrom(s, p.close, k + |p.open|);
    assert f.Some? && f.value <= j;
  }

  /** `re.search` from index i on: the match at the leftmost start. */
  function SearchFrom(s: string, p: Pattern, i: nat): (r: Option<Match>)
    ensures r.Some? ==> i <= r.value.at <= |s| && MatchAt(s, p, r.value.at) == r
    ensures r.Some? ==> forall k: nat :: i <= k < r.value.at ==> MatchAt(s, p, k).None?
    ensures r.Some? ==> r.value.start <= r.value.stop <= |s|
    ensures r.None? ==> forall k: nat :: i <= k ==> MatchAt(s, p, k).None?
    decreases |s| + 1 - i
  {
    if i > |s| then None
    else if MatchAt(s, p, i).Some? then MatchAt(s, p, i)
    else SearchFrom(s, p, i + 1)
  }

  /** The group r of match m is the text right after the opening text and
      right before a closing text, and no closing text starts inside it. */
  predicate Found(s: string, p: Pattern, m: Match, r: string) {
    && m.start >= |p.open| && m.stop == m.start + |r|
    && Layout(s, p, m.at, m.start - |p.open|, m.stop)
    && OccursAt(s, r, m.start)
    && NoCloseIn(s, p, m.start, m.stop)
  }

  /** Every match found is laid out as `Found` says. */
  lemma MatchFound(s: string, p: Pattern, m: Match)
    requires MatchAt(s, p, m.at) == Some(m)
    ensures m.start <= m.stop <= |s| && Found(s, p, m, s[m.start..m.stop])
  {
    var r := MatchAt(s, p, m.at);
    assert r.value == m;
    assert Layout(s, p, m.at, m.start - |p.open|, m.stop);
    assert s[m.start..m.start + (m.stop - m.start)] == s[m.start..m.stop];
  }

  /** `m.group(1) if m else ''` for `m = re.search(pattern, html, re.DOTALL)`.
      When some index starts a match, the leftmost one gives the text; it is
      `Found` there. Otherwise no index starts a match and the text is
      empty. */
  function Extract(s: string, p: Pattern): (r: string)
    ensures SearchFrom(s, p, 0).None? ==> r == "" && forall i: nat :: MatchAt(s, p, i).None?
    ensures SearchFrom(s, p, 0).Some? ==>
              && (forall i: nat :: i < SearchFrom(s, p, 0).value.at ==> MatchAt(s, p, i).None?)
              && Found(s, p, SearchFrom(s, p, 0).value, r)
  {
    match SearchFrom(s, p, 0)
    case Some(m) =>
      MatchFound(s, p, m);
      s[m.start..m.stop]
    case None => ""
  }

  /** A page with no match has no layout of the pattern anywhere, so the
      lookup's empty text means the pieces do not occur in that order. */
  lemma ExtractMissing(s: string, p: Pattern, i: nat, k: nat, j: nat)
    requires p.skipSpace ==> |p.open| > 0 && !IsSpace(p.open[0])
    requires SearchFrom(s, p, 0).None?
    ensures !Layout(s, p, i, k, j)
  {
    if Layout(s, p, i, k, j) {
      MatchAtComplete(s, p, i, k, j);
    }
  }

  /** The greedy `\s*` gives up nothing: an opening text that does not
      start with whitespace cannot occur inside the run of whitespace, so
      no shorter run could let the match go on. */
  lemma GreedySpaceOnly(s: string, p: Pattern, i: nat, k: nat)
    requires p.skipSpace && |p.open| > 0 && !IsSpace(p.open[0])
    requires i + |p.lead| <= k < OpenAt(s, p, i)
    ensures !OccursAt(s, p.open, k)
  {
  }

  /** The first occurrence at or after k0 is the one at m when there is
      none in between. */
  lemma FindFromFirst(s: string, w: string, k0: nat, m: nat)
    requires k0 <= m && OccursAt(s, w, m)
    requires forall j: nat :: k0 <= j < m ==> !OccursAt(s, w, j)
    ensures FindFrom(s, w, k0) == Some(m)
  {
  }

  /** The search returns the match at k when no match starts before k. */
  lemma SearchFirst(s: string, p: Pattern, k: nat)
    requires MatchAt(s, p, k).Some?
    requires forall i: nat :: i < k ==> MatchAt(s, p, i).None?
    ensures SearchFrom(s, p, 0) == MatchAt(s, p, k)
  {
  }

  /** A tag lookup returns the text after the first opening tag, up to the
      first closing tag after it. */
  lemma ExtractTagAt(s: string, open: string, close: string, i: nat, j: nat)
    requires OccursAt(s, open, i) && i + |open| <= j && OccursAt(s, close, j)
    requires forall k: nat :: k < i ==> !OccursAt(s, open, k)
    requires forall k: nat :: i + |open| <= k < j ==> !OccursAt(s, close, k)
    ensures Extract(s, Pattern("", false, open, close)) == s[i + |open|..j]
  {
    var p := Pattern("", false, open, close);
    assert OccursAt(s, p.lead, i) by {
      assert s[i..i] == "";
    }
    MatchAtComplete(s, p, i, i, j);
    var m := MatchAt(s, p, i);
    assert m.value.stop == j;
    SearchFirst(s, p, i);
  }

  /** In `pre + open + rest`, the first opening tag is the one after pre
      when none occurs earlier. */
  lemma FirstOpen(pre: string, open: string, rest: string)
    requires forall i: nat :: i < |pre| ==> !OccursAt(pre + open, open, i)
    ensures OccursAt(pre + open + rest, open, |pre|)
    ensures forall i: nat :: i < |pre| ==> !OccursAt(pre + open + rest, open, i)
  {
    forall i: nat | i < |pre|
      ensures !OccursAt(pre + open + rest, open, i)
    {
      OccursPrefix(pre + open, rest, open, i);
    }
    OccursPrefix(pre + open, rest, open, |pre|);
    assert (pre + open)[|pre|..|pre| + |open|] == open;
  }

  /** In `head + c + close + post`, the first closing tag from |head| on is
      the one after c when none starts inside c. */
  lemma FirstClose(head: string, c: string, close: string, post: string)
    requires forall j: nat :: j < |c| ==> !OccursAt(c + close, close, j)
    ensures OccursAt(head + (c + close + post), close, |head| + |c|)
    ensures forall j: nat :: |head| <= j < |head| + |c| ==> !OccursAt(head + (c + close + post), close, j)
  {
    var rest := c + close + post;
    forall j: nat | |head| <= j < |head| + |c|
      ensures !OccursAt(head + rest, close, j)
    {
      OccursShift(head, rest, close, j - |head|);
      OccursPrefix(c + close, post, close, j - |head|);
    }
    OccursShift(head, rest, close, |c|);
    OccursPrefix(c + close, post, close, |c|);
    assert (c + close)[|c|..|c| + |close|] == close;
  }

  /** A tag lookup finds the text between the first opening tag and the
      closing tag that follows it: when the opening tag does not occur
      before `pre` ends, and the closing tag does not start inside c, the
      group is exactly c. */
  lemma ExtractTagFinds(pre: string, open: string, c: string, close: string, post: string)
    requires forall i: nat :: i < |pre| ==> !OccursAt(pre + open, open, i)
    requires forall j: nat :: j < |c| ==> !OccursAt(c + close, close, j)
    ensures Extract(pre + open + c + close + post, Pattern("", false, open, close)) == c
  {
    var head := pre + open;
    var s := head + (c + close + post);
    assert OccursAt(s, open, |pre|) && forall k: nat :: k < |pre| ==> !OccursAt(s, open, k) by {
      FirstOpen(pre, open, c + close + post);
    }
    assert OccursAt(s, close, |head| + |c|) && (forall k: nat :: |head| <= k < |head| + |c| ==> !OccursAt(s, close, k))
           && s[|head|..|head| + |c|] == c by {
      GroupLayout(head, c, close, post);
    }
    assert pre + open + c + close + post == s by {
      Regroup(head, c, close, post);
    }
    ExtractTagAt(s, open, close, |pre|, |head| + |c|);
  }

  /** The whitespace run starting at k ends at e when s[k..e] is all
      whitespace and s[e] is not. */
  lemma SkipSpaceEnds(s: string, k: nat, e: nat)
    requires k <= e < |s| && !IsSpace(s[e])
    requires forall m :: k <= m < e ==> IsSpace(s[m])
    ensures SkipSpace(s, k) == e
  {
  }

  /** The match at i, for a pattern with a whitespace run. */
  lemma SkipMatch(s: string, p: Pattern, i: nat, k: nat, j: nat)
    requires p.skipSpace && |p.open| > 0 && !IsSpace(p.open[0])
    requires OccursAt(s, p.lead, i) && i + |p.lead| <= k
    requires OccursAt(s, p.open, k) && k + |p.open| <= j && OccursAt(s, p.close, j)
    requires forall m :: i + |p.lead| <= m < k ==> IsSpace(s[m])
    requires forall n: nat :: k + |p.open| <= n < j ==> !OccursAt(s, p.close, n)
    ensures MatchAt(s, p, i) == Some(Match(i, k + |p.open|, j))
  {
    MatchAtComplete(s, p, i, k, j);
    var r := MatchAt(s, p, i);
    assert r.value.stop == j;
  }

  /** A lookup with a whitespace run returns the text after the opening
      that follows the first lead and its whitespace, up to the next
      closing text. */
  lemma ExtractSkipAt(s: string, p: Pattern, i: nat, k: nat, j: nat)
    requires p.skipSpace && |p.open| > 0 && !IsSpace(p.open[0])
    requires OccursAt(s, p.lead, i) && i + |p.lead| <= k
    requires OccursAt(s, p.open, k) && k + |p.open| <= j && OccursAt(s, p.close, j)
    requires forall m :: i + |p.lead| <= m < k ==> IsSpace(s[m])
    requires forall n: nat :: n < i ==> !OccursAt(s, p.lead, n)
    requires forall n: nat :: k + |p.open| <= n < j ==> !OccursAt(s, p.close, n)
    ensures Extract(s, p) == s[k + |p.open|..j]
  {
    SkipMatch(s, p, i, k, j);
    var m := Match(i, k + |p.open|, j);
    forall n: nat | n < i
      ensures MatchAt(s, p, n).None?
    {
    }
    SearchFirst(s, p, i);
    assert SearchFrom(s, p, 0) == Some(m);
  }

  /** Every character of ws sits, as whitespace, at its offset in a + ws + b. */
  lemma SpacesInside(a: string, ws: string, b: string)
    requires forall m :: 0 <= m < |ws| ==> IsSpace(ws[m])
    ensures forall m :: |a| <= m < |a| + |ws| ==> IsSpace((a + ws + b)[m])
  {
    forall m | |a| <= m < |a| + |ws|
      ensures IsSpace((a + ws + b)[m])
    {
      assert (a + ws + b)[m] == ws[m - |a|];
    }
  }

  /** Where the lead, the whitespace and the opening text sit in
      `pre + lead + ws + open + rest`. */
  lemma LeadLayout(pre: string, lead: string, ws: string, open: string, rest: string)
    requires forall i: nat :: i < |pre| ==> !OccursAt(pre + lead, lead, i)
    requires forall m :: 0 <= m < |ws| ==> IsSpace(ws[m])
    ensures var s := pre + lead + ws + open + rest;
      && OccursAt(s, lead, |pre|)
      && (forall n: nat :: n < |pre| ==> !OccursAt(s, lead, n))
      && (forall m :: |pre| + |lead| <= m < |pre| + |lead| + |ws| ==> IsSpace(s[m]))
      && OccursAt(s, open, |pre| + |lead| + |ws|)
  {
    var s := pre + lead + ws + open + rest;
    assert OccursAt(s, lead, |pre|) && forall n: nat :: n < |pre| ==> !OccursAt(s, lead, n) by {
      assert s == pre + lead + (ws + open + rest);
      FirstOpen(pre, lead, ws + open + rest);
    }
    assert forall m :: |pre| + |lead| <= m < |pre| + |lead| + |ws| ==> IsSpace(s[m]) by {
      assert s == (pre + lead) + ws + (open + rest);
      SpacesInside(pre + lead, ws, open + rest);
    }
    assert OccursAt(s, open, |pre| + |lead| + |ws|) by {
      assert s == (pre + lead + ws) + (open + rest);
      SliceAfter(pre + lead + ws, open, rest);
    }
  }

  /** Where the group and the closing text sit in `head + (c + close + post)`. */
  lemma GroupLayout(head: string, c: string, close: string, post: string)
    requires forall j: nat :: j < |c| ==> !OccursAt(c + close, close, j)
    ensures var s := head + (c + close + post);
      && OccursAt(s, close, |head| + |c|)
      && (forall n: nat :: |head| <= n < |head| + |c| ==> !OccursAt(s, close, n))
      && s[|head|..|head| + |c|] == c
  {
    var s := head + (c + close + post);
    FirstClose(head, c, close, post);
    assert s == head + (c + (close + post));
    SliceAfter(head, c, close + post);
  }

  /** Regrouping the four pieces of a page around its group. */
  lemma Regroup(head: string, c: string, close: string, post: string)
    ensures head + c + close + post == head + (c + close + post)
  {
  }

  /** A lookup with a whitespace run finds the text between the opening
      that follows the first lead and whitespace, and the next closing text:
      when the lead does not occur before `pre` ends, ws is whitespace and
      the closing text does not start inside c, the group is exactly c. */
  lemma ExtractSkipFinds(p: Pattern, pre: string, ws: string, c: string, post: string)
    requires p.skipSpace && |p.open| > 0 && !IsSpace(p.open[0])
    requires forall i: nat :: i < |pre| ==> !OccursAt(pre + p.lead, p.lead, i)
    requires forall m :: 0 <= m < |ws| ==> IsSpace(ws[m])
    requires forall j: nat :: j < |c| ==> !OccursAt(c + p.close, p.close, j)
    ensures Extract(pre + p.lead + ws + p.open + c + p.close + post, p) == c
  {
    var head := pre + p.lead + ws + p.open;
    LeadLayout(pre, p.lead, ws, p.open, c + p.close + post);
    GroupLayout(head, c, p.close, post);
    var s := head + (c + p.close + post);
    Regroup(head, c, p.close, post);
    ExtractSkipAt(s, p, |pre|, |pre| + |p.lead| + |ws|, |head| + |c|);
  }

  /** The head lookup finds the text between the first `<head>` and the
      `</head>` that follows it. */
  lemma ExtractHeadFinds(pre: string, c: string, post: string)
    requires forall i: nat :: i < |pre| ==> !OccursAt(pre + "<head>", "<head>", i)
    requires forall j: nat :: j < |c| ==> !OccursAt(c + "</head>", "</head>", j)
    ensures Extract(pre + "<head>" + c + "</head>" + post, HeadPattern) == c
  {
    ExtractTagFinds(pre, "<head>", c, "</head>", post);
  }

  /** The body lookup finds the text between the first `<body>` and the
      `</body>` that follows it. */
  lemma ExtractBodyFinds(pre: string, c: string, post: string)
    requires forall i: nat :: i < |pre| ==> !OccursAt(pre + "<body>", "<body>", i)
    requires forall j: nat :: j < |c| ==> !OccursAt(c + "</body>", "</body>", j)
    ensures Extract(pre + "<body>" + c + "</body>" + post, BodyPattern) == c
  {
    ExtractTagFinds(pre, "<body>", c, "</body>", post);
  }

  /** The map-script lookup finds the text between the `<script>` that
      follows the first `</body>` and whitespace, and the next
      `</script>`: when `</body>` does not occur before `pre` ends, ws is
      whitespace and `</script>` does not start inside c, the group is
      exactly c. */
  lemma ExtractMapScriptFinds(pre: string, ws: string, c: string, post: string)
    requires forall i: nat :: i < |pre| ==> !OccursAt(pre + "</body>", "</body>", i)
    requires forall m :: 0 <= m < |ws| ==> IsSpace(ws[m])
    requires forall j: nat :: j < |c| ==> !OccursAt(c + "</script>", "</script>", j)
    ensures Extract(pre + "</body>" + ws + "<script>" + c + "</script>" + post, MapScriptPattern) == c
  {
    ExtractSkipFinds(MapScriptPattern, pre, ws, c, post);
  }

  // ---------------------------------------------------------------------
  // The meta filter
  // ---------------------------------------------------------------------

  /** A meta tag is copied unless it mentions "viewport", or "charset" in
      any letter case: the rebuilt page writes its own two. */
  predicate KeepMeta(tag: string) {
    !Contains(tag, "viewport") && !Contains(Lower(tag), "charset")
  }

  /** The metas the rebuilt page copies, in their original order. */
  function KeptMetas(tags: seq<string>): (kept: seq<string>)
    ensures |kept| <= |tags|
    ensures forall i :: 0 <= i < |kept| ==> KeepMeta(kept[i]) && kept[i] in tags
  {
    if |tags| == 0 then []
    else
      var rest := KeptMetas(tags[..|tags| - 1]);
      assert forall i :: 0 <= i < |rest| ==> rest[i] in tags;
      if KeepMeta(tags[|tags| - 1]) then rest + [tags[|tags| - 1]] else rest
  }

  /** Filtering a list one element longer adds that element when it is
      kept, and nothing otherwise. */
  lemma KeptMetasSnoc(tags: seq<string>, t: string)
    ensures KeptMetas(tags + [t]) == if KeepMeta(t) then KeptMetas(tags) + [t] else KeptMetas(tags)
  {
    assert (tags + [t])[..|tags|] == tags;
  }

  /** Filtering commutes with concatenation, so kept metas stay in their
      original order. */
  lemma {:induction false} KeptMetasAppend(a: seq<string>, b: seq<string>)
    ensures KeptMetas(a + b) == KeptMetas(a) + KeptMetas(b)
  {
    if |b| == 0 {
      assert a + b == a;
    } else {
      var last := b[|b| - 1];
      var front := b[..|b| - 1];
      assert a + b == (a + front) + [last];
      assert b == front + [last];
      KeptMetasAppend(a, front);
      KeptMetasSnoc(a + front, last);
      KeptMetasSnoc(front, last);
    }
  }

  /** Every meta that passes the test is copied. */
  lemma {:induction false} KeptMetasComplete(tags: seq<string>)
    ensures forall i :: 0 <= i < |tags| && KeepMeta(tags[i]) ==> tags[i] in KeptMetas(tags)
  {
    if |tags| > 0 {
      var front, last := tags[..|tags| - 1], tags[|tags| - 1];
      KeptMetasComplete(front);
      assert tags == front + [last];
      KeptMetasSnoc(front, last);
      var kept, before := KeptMetas(tags), KeptMetas(front);
      if KeepMeta(last) {
        assert kept == before + [last];
        assert last in kept;
      } else {
        assert kept == before;
      }
      assert forall x :: x in before ==> x in kept;
      forall i | 0 <= i < |tags| - 1 && KeepMeta(tags[i])
        ensures tags[i] in kept
      {
        assert tags[i] == front[i];
      }
    }
  }

  /** Filtering twice is filtering once. */
  lemma KeptMetasIdempotent(tags: seq<string>)
    ensures KeptMetas(KeptMetas(tags)) == KeptMetas(tags)
  {
    KeptMetasAllKept(KeptMetas(tags));
  }

  /** A list whose metas all pass is copied whole. */
  lemma {:induction false} KeptMetasAllKept(tags: seq<string>)
    requires forall i :: 0 <= i < |tags| ==> KeepMeta(tags[i])
    ensures KeptMetas(tags) == tags
  {
    if |tags| > 0 {
      var front := tags[..|tags| - 1];
      KeptMetasAllKept(front);
      assert tags == front + [tags[|tags| - 1]];
    }
  }

  /** A viewport meta is dropped. */
  lemma DropsViewport()
    ensures !KeepMeta("<meta name=\"viewport\" />")
  {
    var a, b := "<meta name=\"", "\" />";
    assert "<meta name=\"viewport\" />" == a + ("viewport" + b);
    OccursMiddle(a, "viewport", b);
  }

  /** A charset declaration is dropped whatever the letter case. */
  lemma DropsCharsetAnyCase()
    ensures !KeepMeta("<meta CharSet=\"UTF-8\" />")
  {
    var t := "<meta CharSet=\"UTF-8\" />";
    var a, b := "<meta ", "=\"utf-8\" />";
    assert Lower(t) == a + ("charset" + b);
    OccursMiddle(a, "charset", b);
  }

  // ---------------------------------------------------------------------
  // The rebuilt page
  // ---------------------------------------------------------------------

  /** The opening of the page. */
  const DocStart: string := "<!DOCTYPE html>\n<html>\n<head>\n"
  /** The page's own charset meta. */
  const CharsetMeta: string := "    <meta charset=\"utf-8\">\n"
  /** The page's own viewport meta. */
  const ViewportMeta: string :=
    "    <meta name=\"viewport\" content=\"width=device-width, initial-scale=1.0, "
    + "maximum-scale=1.0, user-scalable=no\">\n"

  /** The fixed first section: doctype, charset and viewport. */
  const Preamble: string := DocStart + CharsetMeta + ViewportMeta

  const MobileCss1: string :=
    "    <style>\n"
    + "    html, body {\n"
    + "        height: 100% !important;\n"
    + "        width: 100% !important;\n"
    + "        margin: 0 !important;\n"
    + "        padding: 0 !important;\n"
    + "        overflow: hidden !important;\n"
    + "        -webkit-overflow-scrolling: touch;\n"

  const MobileCss2: string :=
    "    }\n"
    + "    .folium-map {\n"
    + "        position: absolute !important;\n"
    + "        top: 0 !important;\n"
    + "        left: 0 !important;\n"
    + "        height: 100% !important;\n"
    + "        width: 100% !important;\n"
    + "    }\n"
    + "    .leaflet-container {\n"

  const MobileCss3: string :=
    "        height: 100% !important;\n"
    + "        width: 100% !important;\n"
    + "        -webkit-tap-highlight-color: transparent;\n"
    + "        -webkit-touch-callout: none;\n"
    + "    }\n"
    + "    @media screen and (max-width: 480px) {\n"

  const MobileCss4: string :=
    "        div[style*=\"position:fixed\"][style*=\"bottom\"] {\n"
    + "            width: 180px !important;\n"
    + "            font-size: 11px !important;\n"
    + "            bottom: 10px !important;\n"
    + "            left: 5px !important;\n"

  const MobileCss5: string :=
    "            max-height: 55vh !important;\n"
    + "        }\n"
    + "    }\n"
    + "    </style>\n"

  /** The style block that makes the map fill a phone screen and shrinks
      the legend on narrow screens. */
  const MobileCss: string := MobileCss1 + MobileCss2 + MobileCss3 + MobileCss4 + MobileCss5

  /** The end of the head and the start of the body. */
  const HeadClose: string := "</head>\n<body>\n"

  /** The code before the map script: wait for the page, then poll until
      Leaflet has loaded. */
  const MapScriptOpen: string :=
    "\n<script>\n"
    + "document.addEventListener(\"DOMContentLoaded\", function() {\n"
    + "    (function waitForLeaflet() {\n"
    + "        if (typeof L === \"undefined\") {\n"
    + "            setTimeout(waitForLeaflet, 150);\n"
    + "            return;\n"
    + "        }\n"

  /** The code after the map script. */
  const MapScriptClose: string := "\n    })();\n" + "});\n" + "</script>\n"

  /** The end of the page. */
  const PageEnd: string := "</body>\n</html>"

  /** `'    ' + item + '\n'`: one line of the rebuilt head. */
  function Indented(item: string): (line: string)
    ensures |line| == |item| + 5
    ensures line[..4] == "    " && line[4..|item| + 4] == item && line[|item| + 4] == '\n'
  {
    var line := "    " + item + "\n";
    assert line[4..|item| + 4] == item;
    line
  }

  /** The indented lines of a list of head tags. */
  function Indent(items: seq<string>): (lines: seq<string>)
    ensures |lines| == |items|
  {
    seq(|items|, i requires 0 <= i < |items| => Indented(items[i]))
  }

  /** The text one loop over a list of head tags appends. */
  function Lines(items: seq<string>): string {
    Concat(Indent(items))
  }

  /** One more item adds one more line. */
  lemma LinesSnoc(items: seq<string>, t: string)
    ensures Lines(items + [t]) == Lines(items) + Indented(t)
  {
    assert Indent(items + [t]) == Indent(items) + [Indented(t)];
    assert (Indent(items) + [Indented(t)])[..|items|] == Indent(items);
  }

  /** Regrouping a text and two pieces appended to it. */
  lemma Regroup2(a: string, x: string, y: string)
    ensures a + x + y == a + (x + y)
  {
  }

  /** Regrouping a text and three pieces appended to it. */
  lemma Regroup3(a: string, x: string, y: string, z: string)
    ensures a + x + y + z == a + (x + (y + z))
  {
  }

  /** The map script inside the code that waits for Leaflet. */
  function WrapMapScript(mapScript: string): string {
    MapScriptOpen + (mapScript + MapScriptClose)
  }

  /** The wrapping keeps the map script whole, after the polling code. */
  lemma WrapKeepsScript(mapScript: string)
    ensures var w := WrapMapScript(mapScript);
      && |w| == |MapScriptOpen| + |mapScript| + |MapScriptClose|
      && w[|MapScriptOpen|..|MapScriptOpen| + |mapScript|] == mapScript
  {
    SliceAfter(MapScriptOpen, mapScript, MapScriptClose);
  }

  /** The pieces cut out of the saved page: the tag lists found in its
      head, its body and its map script. */
  datatype PageParts = PageParts(
    metas: seq<string>, cssLinks: seq<string>, styles: seq<string>,
    inlineScripts: seq<string>, jsScripts: seq<string>,
    body: string, mapScript: string)

  /** The parts of the rebuilt page, taken from the saved page: the body and
      the map script by the lookups above, the tag lists as `re.findall`
      returns them from the head content. */
  function PartsOf(html: string, metas: seq<string>, cssLinks: seq<string>, styles: seq<string>,
                   inlineScripts: seq<string>, jsScripts: seq<string>): PageParts
  {
    PageParts(metas, cssLinks, styles, inlineScripts, jsScripts,
              Extract(html, BodyPattern), Extract(html, MapScriptPattern))
  }

  /** The sections of the rebuilt page, in the order they are written. */
  function Sections(parts: PageParts): (ss: seq<string>)
    ensures |ss| == 11
  {
    [ Preamble, Lines(KeptMetas(parts.metas)), Lines(parts.cssLinks), Lines(parts.styles),
      MobileCss, Lines(parts.inlineScripts), Lines(parts.jsScripts), HeadClose,
      parts.body, WrapMapScript(parts.mapScript), PageEnd ]
  }

  /** The rebuilt page: its sections one after another. */
  function RebuiltHtml(parts: PageParts): string {
    Concat(Sections(parts))
  }

  /** Where section k starts in the rebuilt page. */
  function SectionStart(parts: PageParts, k: nat): nat
    requires k <= 11
  {
    |Concat(Sections(parts)[..k])|
  }

  /** Each section sits in the page right after the one before it. */
  lemma SectionsInOrder(parts: PageParts, k: nat)
    requires k < 11
    ensures SectionStart(parts, k) + |Sections(parts)[k]| == SectionStart(parts, k + 1)
    ensures SectionStart(parts, k + 1) <= |RebuiltHtml(parts)|
    ensures RebuiltHtml(parts)[SectionStart(parts, k)..SectionStart(parts, k + 1)] == Sections(parts)[k]
  {
    var ss := Sections(parts);
    assert SectionStart(parts, k) == |Concat(ss[..k])| && SectionStart(parts, k + 1) == |Concat(ss[..k + 1])|;
    assert RebuiltHtml(parts) == Concat(ss);
    ConcatPiece(ss, k);
  }

  /** The loop over a list of head tags. */
  method AppendLines(html: string, items: seq<string>) returns (out: string)
    ensures out == html + Lines(items)
  {
    out := html;
    for i := 0 to |items|
      invariant out == html + Lines(items[..i])
    {
      out := out + ("    " + items[i] + "\n");
      LinesSnoc(items[..i], items[i]);
      assert items[..i + 1] == items[..i] + [items[i]];
    }
    assert items[..|items|] == items;
  }

  /** What one more meta adds to the copied lines. */
  lemma KeptLinesStep(metas: seq<string>, i: nat)
    requires i < |metas|
    ensures Lines(KeptMetas(metas[..i + 1]))
            == Lines(KeptMetas(metas[..i])) + (if KeepMeta(metas[i]) then Indented(metas[i]) else "")
  {
    assert metas[..i + 1] == metas[..i] + [metas[i]];
    KeptMetasSnoc(metas[..i], metas[i]);
    if KeepMeta(metas[i]) {
      LinesSnoc(KeptMetas(metas[..i]), metas[i]);
    }
  }

  /** The loop over the metas, copying those that pass the filter. */
  method AppendKeptMetas(html: string, metas: seq<string>) returns (out: string)
    ensures out == html + Lines(KeptMetas(metas))
  {
    out := html;
    for i := 0 to |metas|
      invariant out == html + Lines(KeptMetas(metas[..i]))
    {
      var tag := metas[i];
      ghost var before := Lines(KeptMetas(metas[..i]));
      KeptLinesStep(metas, i);
      if KeepMeta(tag) {
        Regroup2(html, before, Indented(tag));
        out := out + ("    " + tag + "\n");
      }
    }
    assert metas[..|metas|] == metas;
  }

  /** `new_html`, built section by section. */
  method RebuildHtml(parts: PageParts) returns (html: string)
    ensures html == RebuiltHtml(parts)
  {
    html := DocStart;
    html := html + CharsetMeta;
    html := html + ViewportMeta;
    html := AppendKeptMetas(html, parts.metas);
    html := AppendLines(html, parts.cssLinks);
    html := AppendLines(html, parts.styles);
    html := html + MobileCss;
    html := AppendLines(html, parts.inlineScripts);
    html := AppendLines(html, parts.jsScripts);
    html := html + HeadClose;
    html := html + parts.body;
    ghost var before := html;
    html := html + MapScriptOpen;
    html := html + parts.mapScript;
    html := html + MapScriptClose;
    Regroup3(before, MapScriptOpen, parts.mapScript, MapScriptClose);
    html := html + PageEnd;
    Concat11(Preamble, Lines(KeptMetas(parts.metas)), Lines(parts.cssLinks), Lines(parts.styles),
             MobileCss, Lines(parts.inlineScripts), Lines(parts.jsScripts), HeadClose,
             parts.body, WrapMapScript(parts.mapScript), PageEnd);
  }
}
