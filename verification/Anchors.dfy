/** Fragments of Markdown headings: duplicates are numbered with the least number that is still free. */
module Anchors {
  import opened Wrappers
  import opened Strings

  /** A line of a document: a code fence, or text with its HTML anchors and, if it is a heading, its slug. */
  datatype Line =
    | Fence
    | Text(ids: seq<string>, slug: Option<string>)

  /** `base`, `base-1`, `base-2`, ... */
  function Candidate(base: string, repeat: nat): string {
    if repeat == 0 then base else base + "-" + Decimal(repeat)
  }

  /** The first candidate is the slug itself; repetition `n` is the slug, a hyphen, and `n` without leading zeros. */
  lemma CandidateSpelled(base: string, repeat: nat, text: string)
    ensures Candidate(base, repeat) == text <==>
      if repeat == 0 then text == base
      else
        && |text| > |base| + 1 && text[..|base|] == base && text[|base|] == '-'
        && IsDigits(text[|base| + 1..]) && text[|base| + 1] != '0' && Numeral(text[|base| + 1..]) == repeat
  {
    hide Decimal, Numeral;
    if repeat > 0 {
      NumeralOfDecimal(repeat);
      DecimalHasNoLeadingZero(repeat);
      var spelled := Candidate(base, repeat);
      assert spelled[..|base|] == base && spelled[|base|] == '-' && spelled[|base| + 1..] == Decimal(repeat);
      if && |text| > |base| + 1 && text[..|base|] == base && text[|base|] == '-'
         && IsDigits(text[|base| + 1..]) && text[|base| + 1] != '0' && Numeral(text[|base| + 1..]) == repeat {
        DecimalOfNumeral(text[|base| + 1..]);
        assert text == text[..|base|] + [text[|base|]] + text[|base| + 1..];
      }
    }
  }

  lemma CandidatesDiffer(base: string, i: nat, j: nat)
    requires Candidate(base, i) == Candidate(base, j)
    ensures i == j
  {
    hide Decimal;
    var a, b := Candidate(base, i), Candidate(base, j);
    assert a[|base|..] == b[|base|..];
    if i > 0 && j > 0 {
      assert a[|base|..][1..] == Decimal(i) && b[|base|..][1..] == Decimal(j);
      DecimalInjective(i, j);
    }
  }

  ghost predicate Taken(found: set<string>, base: string, n: nat) {
    forall k :: 0 <= k < n ==> Candidate(base, k) in found
  }

  /** Pigeonhole: a set that holds `n` distinct candidates has at least `n` elements. */
  lemma {:induction false} TakenAtMost(found: set<string>, base: string, n: nat)
    requires Taken(found, base, n)
    ensures n <= |found|
  {
    hide Candidate;
    if n > 0 {
      var last := Candidate(base, n - 1);
      forall k | 0 <= k < n - 1 ensures Candidate(base, k) in found - {last} {
        if Candidate(base, k) == last {
          CandidatesDiffer(base, k, n - 1);
        }
      }
      TakenAtMost(found - {last}, base, n - 1);
    }
  }

  /** The least free repeat number, when the first `n` are taken. */
  function LeastFree(found: set<string>, base: string, n: nat): (repeat: nat)
    requires Taken(found, base, n)
    ensures Taken(found, base, repeat) && Candidate(base, repeat) !in found
    decreases |found| - n
  {
    TakenAtMost(found, base, n);
    if Candidate(base, n) !in found then n
    else
      TakenAtMost(found, base, n + 1);
      LeastFree(found, base, n + 1)
  }

  lemma LeastFreeIs(found: set<string>, base: string, repeat: nat)
    requires Taken(found, base, repeat) && Candidate(base, repeat) !in found
    ensures LeastFree(found, base, 0) == repeat
  {
    hide Candidate;
    var least := LeastFree(found, base, 0);
    assert !(repeat < least) && !(least < repeat);
  }

  // ---------------------------------------------------------------- a document

  datatype Heading = Heading(slug: string, fragment: string)

  /** What has been read: every fragment, whether a code fence is open, and the headings in order. */
  datatype Page = Page(found: set<string>, fenced: bool, headings: seq<Heading>)

  function Elements(ids: seq<string>): set<string> {
    set id | id in ids
  }

  function Read(page: Page, line: Line): Page {
    match line
    case Fence => page.(fenced := !page.fenced)
    case Text(ids, slug) =>
      if page.fenced then page
      else
        var found := page.found + Elements(ids);
        match slug
        case None => page.(found := found)
        case Some(base) =>
          var fragment := Candidate(base, LeastFree(found, base, 0));
          Page(found + {fragment}, false, page.headings + [Heading(base, fragment)])
  }

  function After(lines: seq<Line>, n: nat): Page
    requires n <= |lines|
  {
    if n == 0 then Page({}, false, []) else Read(After(lines, n - 1), lines[n - 1])
  }

  /** Every fragment of a document. */
  method Anchors(lines: seq<Line>) returns (found: set<string>)
    ensures found == After(lines, |lines|).found
  {
    hide Candidate, LeastFree;
    found := {};
    var fenced := false;
    for i := 0 to |lines|
      invariant found == After(lines, i).found && fenced == After(lines, i).fenced
    {
      if lines[i].Fence? {
        fenced := !fenced;
        continue;
      }
      if fenced {
        continue;
      }
      found := found + Elements(lines[i].ids);
      if lines[i].slug.None? {
        continue;
      }
      var anchor := NewFragment(found, lines[i].slug.value);
      found := found + {anchor};
    }
  }

  /** The numbering loop: it ends, at the least free number. */
  method NewFragment(found: set<string>, base: string) returns (anchor: string)
    ensures anchor !in found
    ensures anchor == Candidate(base, LeastFree(found, base, 0))
  {
    hide LeastFree;
    anchor := base;
    var repeat := 0;
    while anchor in found
      invariant repeat <= |found|
      invariant anchor == Candidate(base, repeat) && Taken(found, base, repeat)
      decreases |found| - repeat
    {
      TakenAtMost(found, base, repeat + 1);
      repeat := repeat + 1;
      anchor := base + "-" + Decimal(repeat);
    }
    LeastFreeIs(found, base, repeat);
  }

  // ---------------------------------------------------------------- what the fragments are

  /** Line `i` is text outside every code fence. */
  predicate Shown(lines: seq<Line>, i: nat)
    requires i < |lines|
  {
    lines[i].Text? && !Fenced(lines, i)
  }

  /** An odd number of fences stands before line `n`. */
  predicate Fenced(lines: seq<Line>, n: nat)
    requires n <= |lines|
  {
    n > 0 && (Fenced(lines, n - 1) != lines[n - 1].Fence?)
  }

  /** The slugs of the headings shown among the first `n` lines. */
  function Slugs(lines: seq<Line>, n: nat): seq<string>
    requires n <= |lines|
  {
    if n == 0 then []
    else if Shown(lines, n - 1) && lines[n - 1].slug.Some? then Slugs(lines, n - 1) + [lines[n - 1].slug.value]
    else Slugs(lines, n - 1)
  }

  function SlugsOf(headings: seq<Heading>): seq<string> {
    seq(|headings|, i requires 0 <= i < |headings| => headings[i].slug)
  }

  /** One heading is recorded for each heading line outside a fence, in order. */
  lemma {:induction false} HeadingsAreShown(lines: seq<Line>, n: nat)
    requires n <= |lines|
    ensures After(lines, n).fenced == Fenced(lines, n)
    ensures SlugsOf(After(lines, n).headings) == Slugs(lines, n)
  {
    hide Candidate, LeastFree;
    if n > 0 {
      HeadingsAreShown(lines, n - 1);
    }
  }

  /** The fragments of the headings were found, each for one heading only. */
  ghost predicate OneEach(page: Page) {
    && (forall i :: 0 <= i < |page.headings| ==> page.headings[i].fragment in page.found)
    && forall i, j :: 0 <= i < j < |page.headings| ==> page.headings[i].fragment != page.headings[j].fragment
  }

  lemma ReadKeepsOneEach(page: Page, line: Line)
    requires OneEach(page)
    ensures OneEach(Read(page, line))
  {
    hide Candidate, LeastFree;
  }

  /** What one line adds to the fragments found. */
  lemma ReadFinds(page: Page, line: Line, name: string)
    ensures name in Read(page, line).found <==>
      || name in page.found
      || (!page.fenced && line.Text? && name in line.ids)
      || (|Read(page, line).headings| > |page.headings| && Read(page, line).headings[|page.headings|].fragment == name)
    ensures page.headings <= Read(page, line).headings && |Read(page, line).headings| <= |page.headings| + 1
  {
    hide Candidate, LeastFree;
  }

  /** Some heading has the fragment. */
  ghost predicate HeadingHas(headings: seq<Heading>, name: string) {
    exists i :: 0 <= i < |headings| && headings[i].fragment == name
  }

  /** A line shown among the first `n` has an HTML anchor of that name. */
  ghost predicate AnchorShown(lines: seq<Line>, n: nat, name: string)
    requires n <= |lines|
  {
    exists i :: 0 <= i < n && Shown(lines, i) && name in lines[i].ids
  }

  lemma {:induction false} FoundExactly(lines: seq<Line>, n: nat, name: string)
    requires n <= |lines|
    ensures name in After(lines, n).found <==> HeadingHas(After(lines, n).headings, name) || AnchorShown(lines, n, name)
  {
    hide Read;
    if n > 0 {
      var before, after := After(lines, n - 1), After(lines, n);
      FoundExactly(lines, n - 1, name);
      HeadingsAreShown(lines, n - 1);
      ReadFinds(before, lines[n - 1], name);
      HeadingsMore(before.headings, after.headings, name);
    }
  }

  lemma HeadingsMore(before: seq<Heading>, after: seq<Heading>, name: string)
    requires before <= after && |after| <= |before| + 1
    ensures HeadingHas(after, name) <==>
            HeadingHas(before, name) || (|after| > |before| && after[|before|].fragment == name)
  {
    if HeadingHas(before, name) {
      var i :| 0 <= i < |before| && before[i].fragment == name;
      assert after[i] == before[i];
    }
  }

  /**
   No two headings share a fragment, and the fragments found are exactly those of the headings and the
   HTML anchors outside the fences.
   */
  lemma {:induction false} FragmentsAreUnique(lines: seq<Line>, n: nat)
    requires n <= |lines|
    ensures OneEach(After(lines, n))
    ensures forall name :: name in After(lines, n).found <==>
      HeadingHas(After(lines, n).headings, name) || AnchorShown(lines, n, name)
  {
    hide Read, HeadingHas, AnchorShown, OneEach;
    if n == 0 {
      NothingRead();
    } else {
      FragmentsAreUnique(lines, n - 1);
      ReadKeepsOneEach(After(lines, n - 1), lines[n - 1]);
    }
    forall name ensures name in After(lines, n).found <==>
                        HeadingHas(After(lines, n).headings, name) || AnchorShown(lines, n, name)
    {
      FoundExactly(lines, n, name);
    }
  }

  lemma NothingRead()
    ensures OneEach(Page({}, false, []))
  {
  }

  /** A heading adds one new fragment: its slug with the least number not taken by anything before it. */
  lemma HeadingAddsOne(lines: seq<Line>, i: nat) returns (repeat: nat)
    requires i < |lines| && Shown(lines, i) && lines[i].slug.Some?
    ensures var taken, after := After(lines, i).found + Elements(lines[i].ids), After(lines, i + 1);
      && after.found == taken + {Candidate(lines[i].slug.value, repeat)}
      && |after.found| == |taken| + 1
      && (forall k :: 0 <= k < repeat ==> Candidate(lines[i].slug.value, k) in taken)
      && after.headings == After(lines, i).headings + [Heading(lines[i].slug.value, Candidate(lines[i].slug.value, repeat))]
  {
    hide Candidate;
    HeadingsAreShown(lines, i);
    repeat := LeastFree(After(lines, i).found + Elements(lines[i].ids), lines[i].slug.value, 0);
  }

  // ---------------------------------------------------------------- numbering in order

  function Count(slugs: seq<string>, base: string): nat {
    if slugs == [] then 0
    else Count(slugs[..|slugs| - 1], base) + if slugs[|slugs| - 1] == base then 1 else 0
  }

  /** Neither slug is the other one with a number. */
  ghost predicate Apart(slug: string, base: string) {
    forall k: nat :: slug != Candidate(base, k) && base != Candidate(slug, k)
  }

  /** Nothing among the first `n` lines but the headings with this slug can take one of its fragments. */
  ghost predicate Unclashing(lines: seq<Line>, n: nat, base: string)
    requires n <= |lines|
  {
    && (forall i, k: nat :: 0 <= i < n && Shown(lines, i) ==> Candidate(base, k) !in lines[i].ids)
    && (forall i :: 0 <= i < n && Shown(lines, i) && lines[i].slug.Some? && lines[i].slug.value != base ==>
      Apart(lines[i].slug.value, base))
  }

  /** Candidates of slugs that are apart never meet: the last hyphen separates slug and number. */
  lemma ApartCandidates(slug: string, j: nat, base: string, k: nat)
    requires Apart(slug, base)
    ensures Candidate(slug, j) != Candidate(base, k)
  {
    hide Decimal;
    assert Candidate(slug, 0) == slug && Candidate(base, 0) == base;
    assert Candidate(slug, j)[..|slug|] == slug && Candidate(base, k)[..|base|] == base;
    if j > 0 && k > 0 {
      if |slug| < |base| {
        HyphenBreaksNumber(Candidate(slug, j), slug, j, base, k);
      } else if |base| < |slug| {
        HyphenBreaksNumber(Candidate(base, k), base, k, slug, j);
      }
    }
  }

  lemma HyphenBreaksNumber(text: string, short: string, j: nat, long: string, k: nat)
    requires j > 0 && k > 0 && text == Candidate(short, j) && |short| < |long|
    ensures text != Candidate(long, k)
  {
    hide Decimal;
    if |long| < |text| {
      assert text[|long|] == Decimal(j)[|long| - |short| - 1];
      assert Candidate(long, k)[|long|] == '-';
    }
  }

  /** The next fragment of a slug is a candidate of the base only if it is the base's own next one. */
  lemma NextCandidate(taken: set<string>, slug: string, base: string, count: nat, k: nat)
    requires slug != base ==> Apart(slug, base)
    requires slug == base ==> Taken(taken, base, count) && Candidate(base, count) !in taken
    ensures Candidate(base, k) == Candidate(slug, LeastFree(taken, slug, 0)) <==> slug == base && k == count
  {
    hide Candidate, LeastFree, Apart;
    if slug != base {
      ApartCandidates(slug, LeastFree(taken, slug, 0), base, k);
    } else {
      LeastFreeIs(taken, base, count);
      if Candidate(base, k) == Candidate(base, count) {
        CandidatesDiffer(base, k, count);
      }
    }
  }

  lemma CountMore(lines: seq<Line>, n: nat, base: string)
    requires n < |lines|
    ensures Count(Slugs(lines, n + 1), base) ==
            Count(Slugs(lines, n), base) + if Shown(lines, n) && lines[n].slug == Some(base) then 1 else 0
  {
    hide Count, Fenced;
    if Shown(lines, n) && lines[n].slug.Some? {
      CountOneMore(Slugs(lines, n), lines[n].slug.value, base);
    }
  }

  lemma CountOneMore(slugs: seq<string>, slug: string, base: string)
    ensures Count(slugs + [slug], base) == Count(slugs, base) + if slug == base then 1 else 0
  {
    assert (slugs + [slug])[..|slugs|] == slugs;
  }

  /** Exactly the first candidates, as many as there were headings with the slug, are taken. */
  lemma {:induction false} TakenInOrder(lines: seq<Line>, n: nat, base: string)
    requires n <= |lines| && Unclashing(lines, n, base)
    ensures forall k: nat :: Candidate(base, k) in After(lines, n).found <==> k < Count(Slugs(lines, n), base)
  {
    hide Candidate, LeastFree, Apart, Count, Slugs;
    if n == 0 {
      NothingCounted(lines, base);
    } else {
      TakenInOrder(lines, n - 1, base);
      HeadingsAreShown(lines, n - 1);
      CountMore(lines, n - 1, base);
      if Shown(lines, n - 1) && lines[n - 1].slug.Some? {
        var taken := After(lines, n - 1).found + Elements(lines[n - 1].ids);
        forall k: nat
          ensures Candidate(base, k) == Candidate(lines[n - 1].slug.value, LeastFree(taken, lines[n - 1].slug.value, 0)) <==>
                  lines[n - 1].slug.value == base && k == Count(Slugs(lines, n - 1), base)
        {
          NextCandidate(taken, lines[n - 1].slug.value, base, Count(Slugs(lines, n - 1), base), k);
        }
      }
    }
  }

  lemma NothingCounted(lines: seq<Line>, base: string)
    ensures Count(Slugs(lines, 0), base) == 0
  {
  }

  /** Unless something else clashes, the k-th repetition of a heading gets number k. */
  lemma NumberedInOrder(lines: seq<Line>, i: nat, base: string)
    requires i < |lines| && Shown(lines, i) && lines[i].slug == Some(base)
    requires Unclashing(lines, i + 1, base)
    ensures var headings := After(lines, i + 1).headings;
      |headings| > 0 && headings[|headings| - 1] == Heading(base, Candidate(base, Count(Slugs(lines, i), base)))
  {
    hide Candidate;
    TakenInOrder(lines, i, base);
    HeadingsAreShown(lines, i);
    var taken := After(lines, i).found + Elements(lines[i].ids);
    LeastFreeIs(taken, base, Count(Slugs(lines, i), base));
  }
}
