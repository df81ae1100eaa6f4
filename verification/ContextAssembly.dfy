/**
 The byte-budgeted Context assembler: four sources in fixed order, each with
 nested fragments, rendered into chunks that share one global budget.
 */
module ContextAssembly {
  import opened Wrappers
  import opened Utf8

  datatype Fragment = Fragment(
    id: string,
    sourceType: string,
    content: string,
    byteBudget: Option<int>,
    sourceFingerprint: Option<string>)

  datatype Source = Source(sourceType: string, heading: string, content: string, fragments: seq<Fragment>)

  datatype FragmentEntry = FragmentEntry(
    position: nat,
    id: string,
    inputBytes: nat,
    localBytes: nat,
    renderedBytes: nat,
    includedBytes: nat,
    locallyTruncated: bool,
    globallyTruncated: bool)

  datatype SourceEntry = SourceEntry(
    position: nat,
    sourceType: string,
    inputBytes: nat,
    renderedBytes: nat,
    includedBytes: nat,
    truncated: bool,
    fragments: seq<FragmentEntry>)

  datatype Assembly = Assembly(content: string, manifest: seq<SourceEntry>, truncated: bool)

  datatype AssemblyError = WrongOrder | NegativeFragmentBudget | FragmentFingerprintMismatch

  const REQUIRED_ORDER: seq<string> := ["platform_constraints", "project_brief", "workspace_context", "task_request"]

  function SourceTypes(sources: seq<Source>): seq<string> {
    seq(|sources|, i requires 0 <= i < |sources| => sources[i].sourceType)
  }

  // ---- rendering ----

  function LocalContent(f: Fragment): string {
    if f.byteBudget.Some? then Utf8Prefix(f.content, f.byteBudget.value) else f.content
  }

  function RenderedFragment(f: Fragment, content: string): string {
    "### Context Fragment: " + f.sourceType + "\n" + content + "\n\n"
  }

  function RenderedSource(s: Source): string {
    "## " + s.heading + "\n" + s.content + "\n\n"
  }

  function FragmentChunks(fragments: seq<Fragment>): seq<string> {
    seq(|fragments|, i requires 0 <= i < |fragments| => RenderedFragment(fragments[i], LocalContent(fragments[i])))
  }

  /** The chunks in order: each source, then its fragments after their own cut. */
  function Chunks(sources: seq<Source>): seq<string> {
    if sources == [] then []
    else
      var last := sources[|sources| - 1];
      Chunks(sources[..|sources| - 1]) + [RenderedSource(last)] + FragmentChunks(last.fragments)
  }

  function WholeFragments(fragments: seq<Fragment>): seq<string> {
    seq(|fragments|, i requires 0 <= i < |fragments| => RenderedFragment(fragments[i], fragments[i].content))
  }

  /** The same chunks without any budget. */
  function WholeChunks(sources: seq<Source>): seq<string> {
    if sources == [] then []
    else
      var last := sources[|sources| - 1];
      WholeChunks(sources[..|sources| - 1]) + [RenderedSource(last)] + WholeFragments(last.fragments)
  }

  function Join(chunks: seq<string>): string {
    if chunks == [] then "" else Join(chunks[..|chunks| - 1]) + chunks[|chunks| - 1]
  }

  /** What each chunk may still contribute, in order, under one budget. */
  function Fill(chunks: seq<string>, budget: nat): (r: seq<string>)
    ensures |r| == |chunks|
  {
    if chunks == [] then []
    else
      var before := Fill(chunks[..|chunks| - 1], budget);
      before + [Utf8Prefix(chunks[|chunks| - 1], budget - Bytes(Join(before)))]
  }

  function Left(chunks: seq<string>, budget: nat): int {
    budget - Bytes(Join(Fill(chunks, budget)))
  }

  predicate CutAt(chunks: seq<string>, budget: nat, k: int) {
    0 <= k < |chunks| && Fill(chunks, budget)[k] != chunks[k]
  }

  ghost predicate AnyCut(chunks: seq<string>, budget: nat) {
    exists k :: CutAt(chunks, budget, k)
  }

  // ---- facts about filling ----

  lemma FillSnoc(chunks: seq<string>, next: string, budget: nat)
    ensures Fill(chunks + [next], budget) == Fill(chunks, budget) + [Utf8Prefix(next, Left(chunks, budget))]
  {
    hide Encode, Utf8Prefix;
    var all := chunks + [next];
    assert all[..|all| - 1] == chunks;
  }

  lemma JoinSnoc(chunks: seq<string>, next: string)
    ensures Join(chunks + [next]) == Join(chunks) + next
    ensures Bytes(Join(chunks + [next])) == Bytes(Join(chunks)) + Bytes(next)
  {
    hide Encode;
    var all := chunks + [next];
    assert all[..|all| - 1] == chunks;
    EncodeAppend(Join(chunks), next);
  }

  /** The budget is never exceeded. */
  lemma {:induction false} FillFits(chunks: seq<string>, budget: nat)
    ensures Left(chunks, budget) >= 0 && Bytes(Join(Fill(chunks, budget))) <= budget
  {
    hide EncodeChar, Utf8Prefix;
    if chunks != [] {
      var before, last := chunks[..|chunks| - 1], chunks[|chunks| - 1];
      assert chunks == before + [last];
      FillFits(before, budget);
      FillSnoc(before, last, budget);
      JoinSnoc(Fill(before, budget), Utf8Prefix(last, Left(before, budget)));
      PrefixIsLongestFitting(last, Left(before, budget));
    }
  }

  /** How filling treats the last chunk. */
  lemma LeftSnoc(chunks: seq<string>, next: string, budget: nat)
    ensures var r := Utf8Prefix(next, Left(chunks, budget));
            && Left(chunks + [next], budget) == Left(chunks, budget) - Bytes(r)
            && Left(chunks + [next], budget) >= 0
            && r <= next
            && (r != next ==> Left(chunks + [next], budget) < |EncodeChar(next[|r|])|)
  {
    hide Encode, Utf8Prefix;
    FillFits(chunks, budget);
    FillFits(chunks + [next], budget);
    FillSnoc(chunks, next, budget);
    JoinSnoc(Fill(chunks, budget), Utf8Prefix(next, Left(chunks, budget)));
    PrefixIsLongestFitting(next, Left(chunks, budget));
  }

  lemma {:induction false} FillPrefix(chunks: seq<string>, budget: nat, k: nat)
    requires k <= |chunks|
    ensures Fill(chunks[..k], budget) == Fill(chunks, budget)[..k]
  {
    hide Encode, Utf8Prefix, Join;
    if k < |chunks| {
      FillPrefix(chunks[..|chunks| - 1], budget, k);
      assert chunks[..|chunks| - 1][..k] == chunks[..k];
    } else {
      assert chunks[..k] == chunks;
    }
  }

  /** Every chunk opens with three one-byte characters. */
  predicate Headed(chunk: string) {
    |chunk| >= 3 && forall i :: 0 <= i < 3 ==> |EncodeChar(chunk[i])| == 1
  }

  lemma {:induction false} OneByteChars(p: string)
    requires forall i :: 0 <= i < |p| ==> |EncodeChar(p[i])| == 1
    ensures Bytes(p) == |p|
  {
    if p != "" {
      OneByteChars(p[1..]);
    }
  }

  lemma HeadedTakesWhatIsLeft(chunk: string, left: nat)
    requires Headed(chunk) && left <= 3
    ensures Bytes(Utf8Prefix(chunk, left)) == left
  {
    hide Encode, EncodeChar, Utf8Prefix;
    var p, r := chunk[..left], Utf8Prefix(chunk, left);
    OneByteChars(p);
    PrefixIsLongestFitting(chunk, left);
    assert r == p + r[|p|..];
    EncodeAppend(p, r[|p|..]);
  }

  /**
   After a cut at most three bytes stay unused, and none unless the cut fell in
   the last chunk: the next chunk's heading characters use them up.
   */
  lemma {:induction false} CutUsesTheBudgetUp(chunks: seq<string>, budget: nat, k: nat)
    requires CutAt(chunks, budget, k) && forall i :: 0 <= i < |chunks| ==> Headed(chunks[i])
    ensures 0 <= Left(chunks, budget) <= 3
    ensures k < |chunks| - 1 ==> Left(chunks, budget) == 0
  {
    hide Encode, Join, Utf8Prefix;
    var before, last := chunks[..|chunks| - 1], chunks[|chunks| - 1];
    assert chunks == before + [last];
    LeftSnoc(before, last, budget);
    if k < |chunks| - 1 {
      FillPrefix(chunks, budget, |chunks| - 1);
      CutUsesTheBudgetUp(before, budget, k);
      HeadedTakesWhatIsLeft(last, Left(before, budget));
    } else {
      FillSnoc(before, last, budget);
    }
  }

  /** Something is cut exactly when the chunks together exceed the budget. */
  lemma {:induction false} CutExactlyWhenTooLong(chunks: seq<string>, budget: nat)
    ensures !AnyCut(chunks, budget) ==> Fill(chunks, budget) == chunks
    ensures AnyCut(chunks, budget) ==> Bytes(Join(Fill(chunks, budget))) < Bytes(Join(chunks))
    ensures AnyCut(chunks, budget) <==> Bytes(Join(chunks)) > budget
  {
    if !AnyCut(chunks, budget) {
      forall k | 0 <= k < |chunks| ensures Fill(chunks, budget)[k] == chunks[k] {
        assert !CutAt(chunks, budget, k);
      }
      assert Fill(chunks, budget) == chunks;
      FillFits(chunks, budget);
    } else {
      var k :| CutAt(chunks, budget, k);
      FillIsShorter(chunks, budget, k);
      CutMeansTooLong(chunks, budget, k);
    }
  }

  lemma {:induction false} FillIsShorter(chunks: seq<string>, budget: nat, k: int)
    ensures Bytes(Join(Fill(chunks, budget))) <= Bytes(Join(chunks))
    ensures CutAt(chunks, budget, k) ==> Bytes(Join(Fill(chunks, budget))) < Bytes(Join(chunks))
  {
    hide EncodeChar, Utf8Prefix;
    if chunks != [] {
      var before, last := chunks[..|chunks| - 1], chunks[|chunks| - 1];
      assert chunks == before + [last];
      FillSnoc(before, last, budget);
      FillIsShorter(before, budget, k);
      LeftSnoc(before, last, budget);
      var r := Utf8Prefix(last, Left(before, budget));
      ShorterByBytes(r, last);
      JoinSnoc(before, last);
      JoinSnoc(Fill(before, budget), r);
    }
  }

  lemma {:induction false} CutMeansTooLong(chunks: seq<string>, budget: nat, k: int)
    requires CutAt(chunks, budget, k)
    ensures Bytes(Join(chunks)) > budget
  {
    var before, last := chunks[..|chunks| - 1], chunks[|chunks| - 1];
    assert chunks == before + [last];
    FillSnoc(before, last, budget);
    JoinSnoc(before, last);
    if k < |chunks| - 1 {
      CutMeansTooLong(before, budget, k);
    } else {
      FillIsShorter(before, budget, 0);
      LeftSnoc(before, last, budget);
      var r := Utf8Prefix(last, Left(before, budget));
      assert last == r + last[|r|..];
      EncodeAppend(r, last[|r|..]);
      assert Encode(last[|r|..]) == EncodeChar(last[|r|]) + Encode(last[|r|..][1..]);
    }
  }

  // ---- the whole rendering ----

  ghost predicate LocalCutAt(fragments: seq<Fragment>, j: int) {
    0 <= j < |fragments| && LocalContent(fragments[j]) != fragments[j].content
  }

  ghost predicate LocalCut(sources: seq<Source>) {
    exists i, j :: 0 <= i < |sources| && LocalCutAt(sources[i].fragments, j)
  }

  ghost predicate Truncated(sources: seq<Source>, budget: nat) {
    LocalCut(sources) || AnyCut(Chunks(sources), budget)
  }

  lemma {:induction false} JoinAppend(a: seq<string>, b: seq<string>)
    ensures Join(a + b) == Join(a) + Join(b)
    ensures Bytes(Join(a + b)) == Bytes(Join(a)) + Bytes(Join(b))
  {
    hide Encode;
    if b == [] {
      assert a + b == a;
    } else {
      var init, last := b[..|b| - 1], b[|b| - 1];
      assert (a + b)[..|a + b| - 1] == a + init;
      JoinAppend(a, init);
    }
    EncodeAppend(Join(a), Join(b));
  }

  lemma RenderedLocally(f: Fragment)
    ensures Bytes(RenderedFragment(f, LocalContent(f))) <= Bytes(RenderedFragment(f, f.content))
    ensures LocalContent(f) != f.content ==>
              Bytes(RenderedFragment(f, LocalContent(f))) < Bytes(RenderedFragment(f, f.content))
  {
    var local := LocalContent(f);
    var head := "### Context Fragment: " + f.sourceType + "\n";
    assert local <= f.content by {
      if f.byteBudget.Some? { PrefixIsLongestFitting(f.content, f.byteBudget.value); }
    }
    RenderedBytes(f, local);
    RenderedBytes(f, f.content);
    assert f.content == local + f.content[|local|..];
    EncodeAppend(local, f.content[|local|..]);
  }

  lemma RenderedBytes(f: Fragment, content: string)
    ensures Bytes(RenderedFragment(f, content)) ==
              Bytes("### Context Fragment: " + f.sourceType + "\n") + Bytes(content) + Bytes("\n\n")
  {
    hide Encode;
    var head := "### Context Fragment: " + f.sourceType + "\n";
    assert RenderedFragment(f, content) == (head + content) + "\n\n";
    EncodeAppend(head + content, "\n\n");
    EncodeAppend(head, content);
  }

  lemma {:induction false} ShorterChunks(a: seq<string>, b: seq<string>, j: int)
    requires |a| == |b| && forall i :: 0 <= i < |a| ==> Bytes(a[i]) <= Bytes(b[i])
    ensures Bytes(Join(a)) <= Bytes(Join(b))
    ensures 0 <= j < |a| && Bytes(a[j]) < Bytes(b[j]) ==> Bytes(Join(a)) < Bytes(Join(b))
  {
    hide Encode;
    if a != [] {
      var last := |a| - 1;
      assert a == a[..last] + [a[last]] && b == b[..last] + [b[last]];
      ShorterChunks(a[..last], b[..last], j);
      JoinSnoc(a[..last], a[last]);
      JoinSnoc(b[..last], b[last]);
    }
  }

  lemma FragmentsRenderedLocally(fragments: seq<Fragment>, j: int)
    ensures Bytes(Join(FragmentChunks(fragments))) <= Bytes(Join(WholeFragments(fragments)))
    ensures LocalCutAt(fragments, j) ==> Bytes(Join(FragmentChunks(fragments))) < Bytes(Join(WholeFragments(fragments)))
  {
    forall i | 0 <= i < |fragments|
      ensures Bytes(FragmentChunks(fragments)[i]) <= Bytes(WholeFragments(fragments)[i])
      ensures LocalCutAt(fragments, i) ==> Bytes(FragmentChunks(fragments)[i]) < Bytes(WholeFragments(fragments)[i])
    {
      RenderedLocally(fragments[i]);
    }
    ShorterChunks(FragmentChunks(fragments), WholeFragments(fragments), j);
  }

  lemma {:induction false} SourcesRenderedLocally(sources: seq<Source>)
    ensures Bytes(Join(Chunks(sources))) <= Bytes(Join(WholeChunks(sources)))
    ensures LocalCut(sources) ==> Bytes(Join(Chunks(sources))) < Bytes(Join(WholeChunks(sources)))
    ensures !LocalCut(sources) ==> Chunks(sources) == WholeChunks(sources)
  {
    hide Encode, Join, RenderedSource, FragmentChunks, WholeFragments;
    if sources != [] {
      var init, last := sources[..|sources| - 1], sources[|sources| - 1];
      SourcesRenderedLocally(init);
      var own := [RenderedSource(last)];
      JoinAppend(Chunks(init) + own, FragmentChunks(last.fragments));
      JoinAppend(Chunks(init), own);
      JoinAppend(WholeChunks(init) + own, WholeFragments(last.fragments));
      JoinAppend(WholeChunks(init), own);
      if LocalCut(sources) {
        var i, j :| 0 <= i < |sources| && LocalCutAt(sources[i].fragments, j);
        FragmentsRenderedLocally(last.fragments, j);
        if i < |sources| - 1 {
          assert init[i] == sources[i];
          assert LocalCut(init);
        }
      } else {
        FragmentsRenderedLocally(last.fragments, 0);
        NoLocalCut(sources);
      }
    }
  }

  lemma NoLocalCut(sources: seq<Source>)
    requires sources != [] && !LocalCut(sources)
    ensures !LocalCut(sources[..|sources| - 1])
    ensures var last := sources[|sources| - 1]; FragmentChunks(last.fragments) == WholeFragments(last.fragments)
  {
    var init, last := sources[..|sources| - 1], sources[|sources| - 1];
    forall i, j | 0 <= i < |init| ensures !LocalCutAt(init[i].fragments, j) {
      assert sources[i] == init[i];
    }
    forall j | 0 <= j < |last.fragments|
      ensures FragmentChunks(last.fragments)[j] == WholeFragments(last.fragments)[j]
    {
      assert !LocalCutAt(sources[|sources| - 1].fragments, j);
    }
  }

  lemma {:induction false} AllHeaded(sources: seq<Source>)
    ensures forall i :: 0 <= i < |Chunks(sources)| ==> Headed(Chunks(sources)[i])
  {
    if sources != [] {
      AllHeaded(sources[..|sources| - 1]);
    }
  }

  /** The flag tells exactly whether the content differs from the unbudgeted rendering. */
  lemma TruncatedExactlyWhenDifferent(sources: seq<Source>, budget: nat)
    ensures Truncated(sources, budget) <==>
              Join(Fill(Chunks(sources), budget)) != Join(WholeChunks(sources))
  {
    hide Encode, Join, Chunks, WholeChunks, Fill;
    CutExactlyWhenTooLong(Chunks(sources), budget);
    FillIsShorter(Chunks(sources), budget, 0);
    SourcesRenderedLocally(sources);
  }

  /** Once the global budget cut chunk k, at most three bytes of it stay unused, none unless k is last. */
  lemma AssembledCut(sources: seq<Source>, budget: nat, k: nat)
    requires CutAt(Chunks(sources), budget, k)
    ensures 0 <= Left(Chunks(sources), budget) <= 3
    ensures k < |Chunks(sources)| - 1 ==> Left(Chunks(sources), budget) == 0
  {
    hide Fill, Left;
    AllHeaded(sources);
    CutUsesTheBudgetUp(Chunks(sources), budget, k);
  }

  // ---- what follows a cut ----

  lemma {:induction false} NothingLeftFillsNothing(chunks: seq<string>, more: seq<string>, budget: nat)
    requires Left(chunks, budget) == 0
    ensures Join(Fill(chunks + more, budget)) == Join(Fill(chunks, budget)) && Left(chunks + more, budget) == 0
  {
    hide Encode, DecodeIgnore, Fill, Join, Utf8Prefix;
    if more == [] {
      assert chunks + more == chunks;
    } else {
      var init, last := more[..|more| - 1], more[|more| - 1];
      NothingLeftFillsNothing(chunks, init, budget);
      assert chunks + more == (chunks + init) + [last];
      FillSnoc(chunks + init, last, budget);
      NoBytesNoText(last);
      JoinSnoc(Fill(chunks + init, budget), "");
    }
  }

  lemma NoBytesNoText(chunk: string)
    ensures Utf8Prefix(chunk, 0) == ""
  {
  }

  lemma JoinOfPrefix(chunks: seq<string>, m: nat)
    requires m <= |chunks|
    ensures Join(chunks[..m]) <= Join(chunks)
  {
    assert chunks == chunks[..m] + chunks[m..];
    JoinAppend(chunks[..m], chunks[m..]);
  }

  lemma FirstCharFits(chunk: string, left: nat)
    requires Headed(chunk) && left > 0
    ensures var r := Utf8Prefix(chunk, left); r != "" && r[0] == chunk[0]
  {
    OneByteChars(chunk[..1]);
    PrefixIsLongestFitting(chunk, left);
  }

  /** With bytes to spare after the first chunks, the next chunk's first character follows. */
  lemma StrayHeading(chunks: seq<string>, budget: nat, m: nat)
    requires m < |chunks| && Left(chunks[..m], budget) > 0 && Headed(chunks[m])
    ensures var kept, all := Join(Fill(chunks[..m], budget)), Join(Fill(chunks, budget));
            |all| > |kept| && kept <= all && all[|kept|] == chunks[m][0]
  {
    hide Encode, EncodeChar, Utf8Prefix, Fill, Join, Headed, Left, Bytes;
    var before, next, left := chunks[..m], chunks[m], Left(chunks[..m], budget);
    assert chunks[..m + 1] == before + [next];
    FillSnoc(before, next, budget);
    FirstCharFits(next, left);
    JoinSnoc(Fill(before, budget), Utf8Prefix(next, left));
    FillPrefix(chunks, budget, m + 1);
    JoinOfPrefix(Fill(chunks, budget), m + 1);
    assert Join(Fill(chunks[..m + 1], budget)) == Join(Fill(before, budget)) + Utf8Prefix(next, left);
  }

  lemma UncutPrefix(chunks: seq<string>, budget: nat, k: nat)
    requires k <= |chunks| && forall i :: 0 <= i < k ==> !CutAt(chunks, budget, i)
    ensures Fill(chunks[..k], budget) == chunks[..k]
  {
    FillPrefix(chunks, budget, k);
    forall i | 0 <= i < k ensures Fill(chunks, budget)[..k][i] == chunks[..k][i] {
      assert !CutAt(chunks, budget, i);
    }
  }

  lemma StopsShort(done: string, r: string, cut: string, whole: string)
    requires r <= cut && r != cut && done + cut <= whole
    ensures done + r <= whole && |done + r| < |whole| && whole[|done + r|] == cut[|r|]
  {
    assert whole[|done + r|] == (done + cut)[|done + r|];
  }

  lemma Differ(a: string, b: string, n: nat)
    requires n < |a| && n < |b| && a[n] != b[n]
    ensures !(a <= b)
  {
  }

  /** Up to the first cut the content is the rendering, and there it stops short. */
  lemma FirstCut(chunks: seq<string>, budget: nat, k: nat)
    requires CutAt(chunks, budget, k) && forall i :: 0 <= i < k ==> !CutAt(chunks, budget, i)
    ensures var kept := Join(Fill(chunks[..k + 1], budget));
            && kept <= Join(chunks) && |kept| < |Join(chunks)|
            && Left(chunks[..k + 1], budget) < |EncodeChar(Join(chunks)[|kept|])|
  {
    var done, cut := chunks[..k], chunks[k];
    var r := Utf8Prefix(cut, Left(done, budget));
    assert chunks[..k + 1] == done + [cut];
    UncutPrefix(chunks, budget, k);
    FillSnoc(done, cut, budget);
    assert r != cut by { FillPrefix(chunks, budget, k + 1); }
    LeftSnoc(done, cut, budget);
    JoinSnoc(done, r);
    JoinSnoc(done, cut);
    JoinOfPrefix(chunks, k + 1);
    StopsShort(Join(done), r, cut, Join(chunks));
  }

  lemma WastedBytesAreFilled(chunks: seq<string>, budget: nat, k: nat)
    requires k < |chunks| - 1 && CutAt(chunks, budget, k) && forall i :: 0 <= i < k ==> !CutAt(chunks, budget, i)
    requires Left(chunks[..k + 1], budget) > 0 && Headed(chunks[k + 1])
    ensures !(Join(Fill(chunks, budget)) <= Join(chunks))
  {
    FirstCut(chunks, budget, k);
    StrayHeading(chunks, budget, k + 1);
    var kept := Join(Fill(chunks[..k + 1], budget));
    assert |EncodeChar(chunks[k + 1][0])| == 1;
    Differ(Join(Fill(chunks, budget)), Join(chunks), |kept|);
  }

  lemma PrefixAtFirstCut(chunks: seq<string>, budget: nat, k: nat)
    requires CutAt(chunks, budget, k) && forall i :: 0 <= i < k ==> !CutAt(chunks, budget, i)
    requires forall i :: 0 <= i < |chunks| ==> Headed(chunks[i])
    ensures Join(Fill(chunks, budget)) <= Join(chunks) <==>
              k == |chunks| - 1 || Left(chunks[..k + 1], budget) == 0
  {
    FillFits(chunks[..k + 1], budget);
    if k == |chunks| - 1 {
      assert chunks[..k + 1] == chunks;
      FirstCut(chunks, budget, k);
    } else if Left(chunks[..k + 1], budget) == 0 {
      assert chunks == chunks[..k + 1] + chunks[k + 1..];
      NothingLeftFillsNothing(chunks[..k + 1], chunks[k + 1..], budget);
      FirstCut(chunks, budget, k);
    } else {
      WastedBytesAreFilled(chunks, budget, k);
    }
  }

  /** The budget falls between two characters of the text. */
  ghost predicate EndsOnCharacter(text: string, budget: nat) {
    exists p :: p <= text && Bytes(p) == budget
  }

  function AllButLast(chunks: seq<string>): seq<string> {
    if chunks == [] then [] else chunks[..|chunks| - 1]
  }

  /** A prefix of the text that is longer than kept contains the next character. */
  lemma NextCharacterCounts(text: string, kept: string, p: string)
    requires kept <= text && p <= text && |kept| < |text| && |p| > |kept|
    ensures Bytes(p) >= Bytes(kept) + |EncodeChar(text[|kept|])|
  {
    hide EncodeChar;
    var next, rest := p[|kept|..|kept| + 1], p[|kept| + 1..];
    assert p == kept + (next + rest) && next == [text[|kept|]];
    EncodeAppend(kept, next + rest);
    EncodeAppend(next, rest);
    assert Encode(next) == EncodeChar(next[0]) + Encode(next[1..]);
  }

  lemma ShorterPrefixFits(kept: string, p: string)
    requires p <= kept
    ensures Bytes(p) <= Bytes(kept)
  {
    EncodeAppend(p, kept[|p|..]);
    assert kept == p + kept[|p|..];
  }

  lemma WastesNothingExactly(chunks: seq<string>, budget: nat, k: nat)
    requires CutAt(chunks, budget, k) && forall i :: 0 <= i < k ==> !CutAt(chunks, budget, i)
    ensures Left(chunks[..k + 1], budget) == 0 <==> EndsOnCharacter(Join(chunks), budget)
  {
    hide Encode, EncodeChar, Join, Fill, CutAt;
    CutIsInside(chunks, budget, k);
    var kept, text := Join(Fill(chunks[..k + 1], budget)), Join(chunks);
    FirstCut(chunks, budget, k);
    FillFits(chunks[..k + 1], budget);
    assert Bytes(kept) == budget - Left(chunks[..k + 1], budget);
    if EndsOnCharacter(text, budget) {
      var p :| p <= text && Bytes(p) == budget;
      if |p| > |kept| {
        NextCharacterCounts(text, kept, p);
      } else {
        assert p <= kept;
        ShorterPrefixFits(kept, p);
      }
    }
  }

  lemma {:induction false} FirstCutExists(chunks: seq<string>, budget: nat, n: nat) returns (k: nat)
    requires CutAt(chunks, budget, n)
    ensures CutAt(chunks, budget, k) && forall i :: 0 <= i < k ==> !CutAt(chunks, budget, i)
  {
    hide CutAt;
    if i :| 0 <= i < n && CutAt(chunks, budget, i) {
      k := FirstCutExists(chunks, budget, i);
    } else {
      k := n;
    }
  }

  lemma LastIsCutFirstExactly(chunks: seq<string>, budget: nat, k: nat)
    requires CutAt(chunks, budget, k) && forall i :: 0 <= i < k ==> !CutAt(chunks, budget, i)
    ensures k == |chunks| - 1 <==> Bytes(Join(AllButLast(chunks))) <= budget
  {
    var front := AllButLast(chunks);
    FillPrefix(chunks, budget, |front|);
    CutExactlyWhenTooLong(front, budget);
    if k < |chunks| - 1 {
      assert CutAt(front, budget, k);
    } else {
      forall i ensures !CutAt(front, budget, i) {
        assert 0 <= i < k ==> !CutAt(chunks, budget, i);
      }
    }
  }

  /**
   The content is a prefix of the text it was cut from exactly when the budget
   falls between two characters of that text or all chunks but the last fit;
   otherwise the bytes the cut wasted are filled with the heading characters of
   the next chunk.
   */
  lemma ContentIsPrefixExactly(sources: seq<Source>, budget: nat)
    ensures var chunks := Chunks(sources);
            Join(Fill(chunks, budget)) <= Join(chunks) <==>
              EndsOnCharacter(Join(chunks), budget) || Bytes(Join(AllButLast(chunks))) <= budget
  {
    var chunks := Chunks(sources);
    AllHeaded(sources);
    hide Chunks, Join, Fill, CutAt, Encode, EndsOnCharacter, Headed;
    CutExactlyWhenTooLong(chunks, budget);
    if AnyCut(chunks, budget) {
      var n :| CutAt(chunks, budget, n);
      CutIsInside(chunks, budget, n);
      var k := FirstCutExists(chunks, budget, n);
      PrefixAtFirstCut(chunks, budget, k);
      WastesNothingExactly(chunks, budget, k);
      LastIsCutFirstExactly(chunks, budget, k);
    } else if chunks != [] {
      JoinOfPrefix(chunks, |chunks| - 1);
      ShorterPrefixFits(Join(chunks), Join(AllButLast(chunks)));
    }
  }

  lemma CutIsInside(chunks: seq<string>, budget: nat, n: int)
    requires CutAt(chunks, budget, n)
    ensures 0 <= n < |chunks|
  {
  }

  lemma {:induction false} FirstChunk(sources: seq<Source>)
    requires sources != []
    ensures |Chunks(sources)| >= |sources| && Chunks(sources)[0] == RenderedSource(sources[0])
  {
    hide RenderedSource;
    if |sources| > 1 {
      FirstChunk(sources[..|sources| - 1]);
    } else {
      assert sources[..0] == [];
    }
  }

  /** A budget one byte into a longer character wastes that byte. */
  lemma SplitWastesAByte(text: string, head: string)
    requires head <= text && |head| < |text| && |EncodeChar(text[|head|])| > 1
    ensures !EndsOnCharacter(text, Bytes(head) + 1) && Bytes(text) > Bytes(head) + 1
  {
    hide EncodeChar, Encode;
    forall p | p <= text ensures Bytes(p) != Bytes(head) + 1 {
      if |p| > |head| {
        NextCharacterCounts(text, head, p);
      } else {
        ShorterPrefixFits(head, p);
      }
    }
    NextCharacterCounts(text, head, text);
  }

  /**
   The failing family: the budget ends inside the first character after the
   first heading, and a '#' of the next heading takes the spare byte.
   */
  lemma SplitCharacterBreaksPrefix(sources: seq<Source>)
    requires |sources| > 1 && sources[0].content != "" && |EncodeChar(sources[0].content[0])| > 1
    ensures var chunks, budget := Chunks(sources), Bytes(Heading(sources[0])) + 1;
            !(Join(Fill(chunks, budget)) <= Join(chunks))
  {
    hide Chunks, Fill, Join, Encode, EncodeChar, RenderedSource;
    var chunks, head := Chunks(sources), Heading(sources[0]);
    FirstChunk(sources);
    HeadingThenContent(sources[0]);
    ContentIsPrefixExactly(sources, Bytes(head) + 1);
    SplitAtFirstCharacter(chunks, head);
    SplitAtFirstCharacter(AllButLast(chunks), head);
  }

  function Heading(s: Source): string { "## " + s.heading + "\n" }

  lemma HeadingThenContent(s: Source)
    requires s.content != ""
    ensures Heading(s) <= RenderedSource(s) && |Heading(s)| < |RenderedSource(s)|
    ensures RenderedSource(s)[|Heading(s)|] == s.content[0]
  {
    assert RenderedSource(s) == Heading(s) + (s.content + "\n\n");
  }

  lemma SplitAtFirstCharacter(chunks: seq<string>, head: string)
    requires chunks != [] && head <= chunks[0] && |head| < |chunks[0]| && |EncodeChar(chunks[0][|head|])| > 1
    ensures !EndsOnCharacter(Join(chunks), Bytes(head) + 1) && Bytes(Join(chunks)) > Bytes(head) + 1
  {
    hide Join, Encode, EncodeChar;
    StartsWithFirst(chunks);
    SplitWastesAByte(Join(chunks), head);
  }

  lemma StartsWithFirst(chunks: seq<string>)
    requires chunks != []
    ensures chunks[0] <= Join(chunks)
  {
    JoinOfPrefix(chunks, 1);
    assert chunks[..1][..0] == [];
    assert Join(chunks[..1]) == "" + chunks[0];
  }

  /** One of them, in the order the assembler asks for: an accented letter. */
  function Accented(): seq<Source> {
    [ Source("platform_constraints", "Platform Constraints", "\U{e9}", []),
      Source("project_brief", "Project Brief", "", []),
      Source("workspace_context", "Workspace Context", "", []),
      Source("task_request", "Task Request", "", []) ]
  }

  lemma AccentedIsAccepted()
    ensures SourceTypes(Accented()) == REQUIRED_ORDER && |Accented()| == 4 && Accented()[0].content == "\U{e9}"
  {
    assert SourceTypes(Accented()) == REQUIRED_ORDER;
  }

  lemma AccentBreaksPrefix()
    ensures SourceTypes(Accented()) == REQUIRED_ORDER
    ensures exists budget: nat :: !(Join(Fill(Chunks(Accented()), budget)) <= Join(Chunks(Accented())))
  {
    AccentedIsAccepted();
    assert |EncodeChar('\U{e9}')| == 2;
    hide Accented, Chunks, Join, Fill, Encode, EncodeChar, SourceTypes;
    SplitCharacterBreaksPrefix(Accented());
  }

  // ---- the manifest ----

  /** e accounts for fragment f at position j, rendered after the chunks in done. */
  ghost predicate FragmentEntryMatches(done: seq<string>, f: Fragment, j: int, e: FragmentEntry, budget: nat) {
    var next := RenderedFragment(f, LocalContent(f));
    && e.position == j && e.id == f.id
    && e.inputBytes == Bytes(f.content) && e.localBytes == Bytes(LocalContent(f))
    && e.renderedBytes == Bytes(next)
    && e.includedBytes == Left(done, budget) - Left(done + [next], budget)
    && (e.locallyTruncated <==> LocalContent(f) != f.content)
    && (e.globallyTruncated <==> e.includedBytes != e.renderedBytes)
  }

  /** Entry i accounts for everything source i rendered and contributed. */
  ghost predicate SourceEntryMatches(sources: seq<Source>, i: int, e: SourceEntry, budget: nat)
    requires 0 <= i < |sources|
  {
    var s, before, after := sources[i], Chunks(sources[..i]), Chunks(sources[..i + 1]);
    && e.position == i && e.sourceType == s.sourceType && e.inputBytes == Bytes(s.content)
    && e.renderedBytes == Bytes(Join(after)) - Bytes(Join(before))
    && e.includedBytes == Left(before, budget) - Left(after, budget)
    && (e.truncated <==> e.includedBytes != e.renderedBytes || exists j :: LocalCutAt(s.fragments, j))
    && |e.fragments| == |s.fragments|
    && forall j :: 0 <= j < |s.fragments| ==>
         FragmentEntryMatches(before + [RenderedSource(s)] + FragmentChunks(s.fragments[..j]),
                              s.fragments[j], j, e.fragments[j], budget)
  }

  function IncludedTotal(manifest: seq<SourceEntry>): nat {
    if manifest == [] then 0
    else IncludedTotal(manifest[..|manifest| - 1]) + manifest[|manifest| - 1].includedBytes
  }

  lemma NothingYet(sources: seq<Source>, budget: nat)
    ensures Fill(Chunks(sources[..0]), budget) == [] && Left(Chunks(sources[..0]), budget) == budget
    ensures !Truncated(sources[..0], budget)
  {
    assert sources[..0] == [];
  }

  lemma {:induction false} IncludedTelescopes(sources: seq<Source>, manifest: seq<SourceEntry>, budget: nat, n: nat)
    requires n <= |manifest| == |sources|
    requires forall i :: 0 <= i < n ==> SourceEntryMatches(sources, i, manifest[i], budget)
    ensures IncludedTotal(manifest[..n]) == budget - Left(Chunks(sources[..n]), budget)
  {
    hide Chunks, Left, FragmentEntryMatches;
    if n == 0 {
      NothingYet(sources, budget);
    } else {
      IncludedTelescopes(sources, manifest, budget, n - 1);
      assert manifest[..n][..n - 1] == manifest[..n - 1];
      assert SourceEntryMatches(sources, n - 1, manifest[n - 1], budget);
    }
  }

  /** The manifest's included bytes add up to the content. */
  lemma ManifestAccountsForContent(sources: seq<Source>, manifest: seq<SourceEntry>, budget: nat)
    requires |manifest| == |sources|
    requires forall i :: 0 <= i < |sources| ==> SourceEntryMatches(sources, i, manifest[i], budget)
    ensures IncludedTotal(manifest) == Bytes(Join(Fill(Chunks(sources), budget)))
  {
    IncludedTelescopes(sources, manifest, budget, |manifest|);
    assert manifest[..|manifest|] == manifest && sources[..|sources|] == sources;
  }

  // ---- the loops ----

  predicate Acceptable(f: Fragment, fingerprint: string -> string) {
    && (f.byteBudget.Some? ==> f.byteBudget.value >= 0)
    && (f.sourceFingerprint.Some? ==> f.sourceFingerprint.value == fingerprint(f.content))
  }

  lemma LocalCutByBytes(f: Fragment)
    ensures Bytes(LocalContent(f)) != Bytes(f.content) <==> LocalContent(f) != f.content
  {
    if f.byteBudget.Some? {
      PrefixIsLongestFitting(f.content, f.byteBudget.value);
      ShorterByBytes(LocalContent(f), f.content);
    }
  }

  /** What filling one more chunk does, in byte counts. */
  lemma NextChunk(done: seq<string>, next: string, budget: nat)
    ensures var r := Utf8Prefix(next, Left(done, budget));
            && Fill(done + [next], budget) == Fill(done, budget) + [r]
            && Left(done + [next], budget) == Left(done, budget) - Bytes(r)
            && Bytes(r) <= Bytes(next)
            && Bytes(Join(done + [next])) == Bytes(Join(done)) + Bytes(next)
  {
    FillSnoc(done, next, budget);
    LeftSnoc(done, next, budget);
    ShorterByBytes(Utf8Prefix(next, Left(done, budget)), next);
    JoinSnoc(done, next);
  }

  /** One fragment: its own cut, then what the shared budget leaves of it. */
  method AddFragment(ghost done: seq<string>, f: Fragment, j: nat, remaining: int, ghost budget: nat)
    returns (included: string, e: FragmentEntry)
    requires remaining == Left(done, budget)
    ensures included == Utf8Prefix(RenderedFragment(f, LocalContent(f)), remaining)
    ensures FragmentEntryMatches(done, f, j, e, budget) && e.includedBytes == Bytes(included) <= e.renderedBytes
  {
    var local := if f.byteBudget.Some? then Utf8Prefix(f.content, f.byteBudget.value) else f.content;
    var rendered := RenderedFragment(f, local);
    included := Utf8Prefix(rendered, remaining);
    NextChunk(done, rendered, budget);
    LocalCutByBytes(f);
    e := FragmentEntry(j, f.id, Bytes(f.content), Bytes(local), Bytes(rendered), Bytes(included),
                       Bytes(local) != Bytes(f.content), Bytes(included) != Bytes(rendered));
  }

  lemma FragmentChunksSnoc(base: seq<string>, fragments: seq<Fragment>, j: nat)
    requires j < |fragments|
    ensures base + FragmentChunks(fragments[..j]) + [RenderedFragment(fragments[j], LocalContent(fragments[j]))] ==
              base + FragmentChunks(fragments[..j + 1])
  {
    assert FragmentChunks(fragments[..j + 1]) ==
             FragmentChunks(fragments[..j]) + [RenderedFragment(fragments[j], LocalContent(fragments[j]))];
  }

  /** What the loop over one source's fragments has produced. */
  datatype Progress = Progress(
    chunks: seq<string>, remaining: int, entries: seq<FragmentEntry>, rendered: nat, included: nat, truncated: bool)

  /** p is the state after the fragments fs that follow the chunks in base. */
  ghost predicate After(base: seq<string>, fs: seq<Fragment>, p: Progress, start: Progress, budget: nat) {
    var done := base + FragmentChunks(fs);
    && p.chunks == Fill(done, budget) && p.remaining == Left(done, budget)
    && p.rendered - start.rendered == Bytes(Join(done)) - Bytes(Join(base))
    && p.included - start.included == Left(base, budget) - p.remaining
    && p.rendered - p.included >= start.rendered - start.included
    && (p.truncated <==> start.truncated || (exists k :: LocalCutAt(fs, k))
                         || p.rendered - p.included > start.rendered - start.included)
    && |p.entries| == |fs|
    && forall k :: 0 <= k < |fs| ==>
         FragmentEntryMatches(base + FragmentChunks(fs[..k]), fs[k], k, p.entries[k], budget)
  }

  lemma AfterNext(base: seq<string>, fs: seq<Fragment>, f: Fragment, p: Progress, start: Progress,
                  included: string, e: FragmentEntry, budget: nat)
    requires After(base, fs, p, start, budget)
    requires included == Utf8Prefix(RenderedFragment(f, LocalContent(f)), p.remaining)
    requires FragmentEntryMatches(base + FragmentChunks(fs), f, |fs|, e, budget)
    requires e.includedBytes == Bytes(included) <= e.renderedBytes
    ensures After(base, fs + [f],
                  Progress(p.chunks + [included], p.remaining - e.includedBytes, p.entries + [e],
                           p.rendered + e.renderedBytes, p.included + e.includedBytes,
                           p.truncated || e.locallyTruncated || e.globallyTruncated), start, budget)
  {
    hide Fill, Left, Join, Bytes, Encode, RenderedFragment, LocalContent, Utf8Prefix;
    var done, next := base + FragmentChunks(fs), RenderedFragment(f, LocalContent(f));
    var all := fs + [f];
    FragmentChunksSnoc(base, all, |fs|);
    assert all[..|fs|] == fs && all[..|fs| + 1] == all;
    NextChunk(done, next, budget);
    forall k | 0 <= k < |all|
      ensures FragmentEntryMatches(base + FragmentChunks(all[..k]), all[k], k, (p.entries + [e])[k], budget)
    {
      assert k < |fs| ==> all[..k] == fs[..k] && all[k] == fs[k];
    }
    assert forall k :: 0 <= k < |fs| ==> (LocalCutAt(all, k) <==> LocalCutAt(fs, k));
    assert LocalCutAt(all, |fs|) <==> e.locallyTruncated;
  }

  /** The assembler's loop over the fragments of one source. */
  method AddFragments(ghost base: seq<string>, fragments: seq<Fragment>, start: Progress, fingerprint: string -> string,
                      ghost budget: nat)
    returns (r: Result<Progress, AssemblyError>)
    requires start.entries == [] && start.chunks == Fill(base, budget) && start.remaining == Left(base, budget)
    ensures r.Ok? <==> forall j :: 0 <= j < |fragments| ==> Acceptable(fragments[j], fingerprint)
    ensures r.Ok? ==> After(base, fragments, r.value, start, budget)
    ensures r != Err(WrongOrder)
  {
    hide Fill, Left, Join, Bytes, Encode, RenderedFragment, LocalContent, Utf8Prefix, FragmentEntryMatches;
    var p := start;
    assert fragments[..0] == [] && base + FragmentChunks([]) == base;
    for j := 0 to |fragments|
      invariant After(base, fragments[..j], p, start, budget)
      invariant forall k :: 0 <= k < j ==> Acceptable(fragments[k], fingerprint)
    {
      var f := fragments[j];
      if f.byteBudget.Some? && f.byteBudget.value < 0 {
        return Err(NegativeFragmentBudget);
      }
      if f.sourceFingerprint.Some? && f.sourceFingerprint.value != fingerprint(f.content) {
        return Err(FragmentFingerprintMismatch);
      }
      var included, e := AddFragment(base + FragmentChunks(fragments[..j]), f, j, p.remaining, budget);
      AfterNext(base, fragments[..j], f, p, start, included, e, budget);
      assert fragments[..j] + [f] == fragments[..j + 1];
      p := Progress(p.chunks + [included], p.remaining - e.includedBytes, p.entries + [e],
                    p.rendered + e.renderedBytes, p.included + e.includedBytes,
                    p.truncated || e.locallyTruncated || e.globallyTruncated);
    }
    assert fragments[..|fragments|] == fragments;
    r := Ok(p);
  }

  /** One source with its fragments. */
  method AddSource(sources: seq<Source>, i: nat, chunks: seq<string>, remaining: int, fingerprint: string -> string,
                   ghost budget: nat)
    returns (r: Result<(seq<string>, int, SourceEntry), AssemblyError>)
    requires i < |sources|
    requires chunks == Fill(Chunks(sources[..i]), budget) && remaining == Left(Chunks(sources[..i]), budget)
    ensures r.Ok? <==> forall j :: 0 <= j < |sources[i].fragments| ==> Acceptable(sources[i].fragments[j], fingerprint)
    ensures r.Ok? ==> r.value.0 == Fill(Chunks(sources[..i + 1]), budget)
    ensures r.Ok? ==> r.value.1 == Left(Chunks(sources[..i + 1]), budget)
    ensures r.Ok? ==> SourceEntryMatches(sources, i, r.value.2, budget)
    ensures r != Err(WrongOrder)
  {
    hide Fill, Left, Join, Bytes, Encode, RenderedFragment, LocalContent, Utf8Prefix, FragmentEntryMatches,
      RenderedSource;
    var source := sources[i];
    var rendered := RenderedSource(source);
    var included := Utf8Prefix(rendered, remaining);
    ghost var before := Chunks(sources[..i]);
    NextChunk(before, rendered, budget);
    var start := Progress(chunks + [included], remaining - Bytes(included), [], Bytes(rendered), Bytes(included),
                          Bytes(included) != Bytes(rendered));
    var p := AddFragments(before + [rendered], source.fragments, start, fingerprint, budget);
    if p.Err? {
      return Err(p.error);
    }
    assert sources[..i + 1][..i] == sources[..i];
    assert Chunks(sources[..i + 1]) == before + [rendered] + FragmentChunks(source.fragments);
    r := Ok((p.value.chunks, p.value.remaining,
             SourceEntry(i, source.sourceType, Bytes(source.content), p.value.rendered, p.value.included,
                         p.value.truncated, p.value.entries)));
  }

  // ---- the assembler ----

  ghost predicate AllAcceptable(sources: seq<Source>, fingerprint: string -> string) {
    forall i, j :: 0 <= i < |sources| && 0 <= j < |sources[i].fragments| ==>
      Acceptable(sources[i].fragments[j], fingerprint)
  }

  /** Entries are truncated somewhere exactly when the whole is. */
  lemma {:induction false} TruncatedBySource(sources: seq<Source>, manifest: seq<SourceEntry>, budget: nat, n: nat)
    requires n <= |manifest| == |sources|
    requires forall i :: 0 <= i < |sources| ==> SourceEntryMatches(sources, i, manifest[i], budget)
    ensures Bytes(Join(Fill(Chunks(sources[..n]), budget))) <= Bytes(Join(Chunks(sources[..n])))
    ensures (exists i :: 0 <= i < n && manifest[i].truncated) <==> Truncated(sources[..n], budget)
  {
    hide Fill, Left, Join, Chunks, Bytes, AnyCut, FragmentEntryMatches, LocalCut;
    var now := sources[..n];
    CutExactlyWhenTooLong(Chunks(now), budget);
    FillIsShorter(Chunks(now), budget, 0);
    if n == 0 {
      NothingYet(sources, budget);
    } else {
      TruncatedBySource(sources, manifest, budget, n - 1);
      var was := sources[..n - 1];
      CutExactlyWhenTooLong(Chunks(was), budget);
      assert SourceEntryMatches(sources, n - 1, manifest[n - 1], budget);
      LocalCutSnoc(was, sources[n - 1]);
      assert now == was + [sources[n - 1]];
      CutGrows(sources, n, budget, manifest[n - 1]);
    }
  }

  lemma LocalCutSnoc(was: seq<Source>, s: Source)
    ensures LocalCut(was + [s]) <==> LocalCut(was) || exists j :: LocalCutAt(s.fragments, j)
  {
    var now := was + [s];
    if LocalCut(was) {
      var i, j :| 0 <= i < |was| && LocalCutAt(was[i].fragments, j);
      assert now[i] == was[i];
    }
    if exists j :: LocalCutAt(s.fragments, j) {
      var j :| LocalCutAt(s.fragments, j);
      assert LocalCutAt(now[|was|].fragments, j);
    }
    if LocalCut(now) {
      var i, j :| 0 <= i < |now| && LocalCutAt(now[i].fragments, j);
      assert i < |was| ==> now[i] == was[i];
    }
  }

  lemma CutGrows(sources: seq<Source>, n: nat, budget: nat, e: SourceEntry)
    requires 0 < n <= |sources| && SourceEntryMatches(sources, n - 1, e, budget)
    ensures AnyCut(Chunks(sources[..n]), budget) <==>
              AnyCut(Chunks(sources[..n - 1]), budget) || e.includedBytes != e.renderedBytes
  {
    var was, now := Chunks(sources[..n - 1]), Chunks(sources[..n]);
    CutExactlyWhenTooLong(was, budget);
    CutExactlyWhenTooLong(now, budget);
    FillIsShorter(was, budget, 0);
    FillIsShorter(now, budget, 0);
  }

  /**
   `ContextAssembler.assemble`: content within the budget, a manifest that
   accounts for every byte, and a flag that tells exactly whether anything of the
   unbudgeted rendering is missing.
   */
  method Assemble(sources: seq<Source>, byteBudget: nat, fingerprint: string -> string)
    returns (r: Result<Assembly, AssemblyError>)
    ensures r.Ok? <==> SourceTypes(sources) == REQUIRED_ORDER && AllAcceptable(sources, fingerprint)
    ensures r == Err(WrongOrder) <==> SourceTypes(sources) != REQUIRED_ORDER
    ensures r.Ok? ==> r.value.content == Join(Fill(Chunks(sources), byteBudget)) && Bytes(r.value.content) <= byteBudget
    ensures r.Ok? ==> |r.value.manifest| == |sources| && IncludedTotal(r.value.manifest) == Bytes(r.value.content)
    ensures r.Ok? ==> forall i :: 0 <= i < |sources| ==> SourceEntryMatches(sources, i, r.value.manifest[i], byteBudget)
    ensures r.Ok? ==> (r.value.truncated <==> r.value.content != Join(WholeChunks(sources)))
  {
    hide Fill, Left, Join, Bytes, Encode, FragmentEntryMatches, WholeChunks, SourceEntryMatches;
    if SourceTypes(sources) != REQUIRED_ORDER {
      return Err(WrongOrder);
    }
    var remaining: int := byteBudget;
    var chunks: seq<string> := [];
    var manifest: seq<SourceEntry> := [];
    var truncated := false;
    NothingYet(sources, byteBudget);
    for i := 0 to |sources|
      invariant chunks == Fill(Chunks(sources[..i]), byteBudget) && remaining == Left(Chunks(sources[..i]), byteBudget)
      invariant |manifest| == i && AllAcceptable(sources[..i], fingerprint)
      invariant forall k :: 0 <= k < i ==> SourceEntryMatches(sources, k, manifest[k], byteBudget)
      invariant truncated <==> exists k :: 0 <= k < i && manifest[k].truncated
    {
      var added := AddSource(sources, i, chunks, remaining, fingerprint, byteBudget);
      if added.Err? {
        return Err(added.error);
      }
      chunks, remaining := added.value.0, added.value.1;
      truncated := truncated || added.value.2.truncated;
      ghost var before := manifest;
      manifest := manifest + [added.value.2];
      assert manifest[i].truncated == added.value.2.truncated;
      assert forall k :: 0 <= k < i ==> manifest[k] == before[k];
    }
    assert sources[..|sources|] == sources;
    FillFits(Chunks(sources), byteBudget);
    ManifestAccountsForContent(sources, manifest, byteBudget);
    TruncatedBySource(sources, manifest, byteBudget, |sources|);
    TruncatedExactlyWhenDifferent(sources, byteBudget);
    r := Ok(Assembly(Join(chunks), manifest, truncated));
  }
}
