/** The section split of create_pdfs.py: surviving entries are cut into
    non-empty sections, one PDF each, either at the review's section breaks
    (manual mode) or greedily by estimated size (automatic mode).

    Each mode has a specification function that walks the entries with the
    section being built (ManualFrom, AutoFrom), a declarative description of
    a correct split (IsManualSplit, IsAutoSplit), lemmas that the function
    meets the description and is the only split that does, and a method with
    the script's loop proved equal to the function. */
module Paginator {
  import opened PyJson
  import opened CorrectionPipeline

  type Section = seq<Entry>

  /** The sections laid end to end. */
  function Flatten(ss: seq<Section>): seq<Entry> {
    if ss == [] then [] else ss[0] + Flatten(ss[1..])
  }

  predicate AllNonEmpty(ss: seq<Section>) {
    forall k :: 0 <= k < |ss| ==> ss[k] != []
  }

  lemma FlattenCons(s: Section, ss: seq<Section>)
    ensures Flatten([s] + ss) == s + Flatten(ss)
  {
    assert ([s] + ss)[1..] == ss;
  }

  lemma FlattenEmpty(ss: seq<Section>)
    requires AllNonEmpty(ss) && Flatten(ss) == []
    ensures ss == []
  {
  }

  /** Non-empty sections are no more than the entries they hold. */
  lemma {:induction false} SectionCount(ss: seq<Section>)
    requires AllNonEmpty(ss)
    ensures |ss| <= |Flatten(ss)|
  {
    if ss != [] {
      SectionCount(ss[1..]);
    }
  }

  /** In a split of cur + rest whose first section is at least as long as cur,
      the first section begins with cur. */
  lemma FirstSectionStartsWith(ss: seq<Section>, cur: Section, rest: seq<Entry>)
    requires ss != [] && Flatten(ss) == cur + rest && |cur| <= |ss[0]|
    ensures ss[0] + Flatten(ss[1..]) == cur + rest
    ensures ss[0][..|cur|] == cur
    ensures Flatten(ss[1..]) == (cur + rest)[|ss[0]|..]
    ensures forall j :: |cur| <= j < |ss[0]| ==> ss[0][j] == rest[j - |cur|]
  {
    assert ss[0] + Flatten(ss[1..]) == cur + rest;
    assert (cur + rest)[..|ss[0]|] == ss[0];
  }

  // ---------------------------------------------------------------------
  // Manual mode (create_pdfs.py:140-154)
  // ---------------------------------------------------------------------

  /** The entry's file name is one of the review's section breaks. */
  predicate IsBreak(e: Entry, breaks: set<Value>) {
    Str(e.file.name) in breaks
  }

  /** No entry of sec other than its first is a break. */
  predicate NoInnerBreak(sec: Section, breaks: set<Value>) {
    forall j :: 0 < j < |sec| ==> !IsBreak(sec[j], breaks)
  }

  /** Every section after the first begins with a break. */
  predicate BreaksOpen(ss: seq<Section>, breaks: set<Value>) {
    forall k :: 0 < k < |ss| ==> ss[k] != [] && IsBreak(ss[k][0], breaks)
  }

  predicate InnerFree(ss: seq<Section>, breaks: set<Value>) {
    forall k :: 0 <= k < |ss| ==> NoInnerBreak(ss[k], breaks)
  }

  /** A correct manual split of es: it partitions es into non-empty sections,
      a break opens every section but the first, and breaks occur nowhere else
      except as the very first entry. */
  predicate IsManualSplit(es: seq<Entry>, breaks: set<Value>, ss: seq<Section>) {
    Flatten(ss) == es && AllNonEmpty(ss) && BreaksOpen(ss, breaks) && InnerFree(ss, breaks)
  }

  /** The sections still to come when cur is the section being built and rest
      the entries not yet looked at. */
  function ManualFrom(cur: Section, rest: seq<Entry>, breaks: set<Value>): seq<Section>
    decreases |rest|
  {
    if rest == [] then (if cur == [] then [] else [cur])
    else if IsBreak(rest[0], breaks) && cur != [] then [cur] + ManualFrom([rest[0]], rest[1..], breaks)
    else ManualFrom(cur + [rest[0]], rest[1..], breaks)
  }

  function ManualSections(es: seq<Entry>, breaks: set<Value>): (ss: seq<Section>)
    ensures IsManualSplit(es, breaks, ss)
  {
    ManualFromValid([], es, breaks);
    assert [] + es == es;
    ManualFrom([], es, breaks)
  }

  lemma {:induction false} ManualFromValid(cur: Section, rest: seq<Entry>, breaks: set<Value>)
    requires NoInnerBreak(cur, breaks)
    ensures var ss := ManualFrom(cur, rest, breaks);
      Flatten(ss) == cur + rest && AllNonEmpty(ss) && BreaksOpen(ss, breaks) && InnerFree(ss, breaks) &&
      (ss != [] ==> ss[0] != [] && ss[0][0] == (cur + rest)[0])
    decreases |rest|
  {
    if rest == [] {
      assert cur + rest == cur;
      if cur != [] {
        FlattenCons(cur, []);
        assert [cur] + [] == [cur];
      }
    } else if IsBreak(rest[0], breaks) && cur != [] {
      var tail := ManualFrom([rest[0]], rest[1..], breaks);
      ManualFromValid([rest[0]], rest[1..], breaks);
      FlattenCons(cur, tail);
      assert [rest[0]] + rest[1..] == rest;
      var ss := [cur] + tail;
      assert forall k :: 0 < k < |ss| ==> ss[k] == tail[k - 1];
    } else {
      ManualFromValid(cur + [rest[0]], rest[1..], breaks);
      assert (cur + [rest[0]]) + rest[1..] == cur + rest;
    }
  }

  /** A section that runs past cur would hold rest[0] at an inner position. */
  lemma BreakEndsSection(head: Section, cur: Section, rest: seq<Entry>, breaks: set<Value>)
    requires |cur| > 0 && rest != [] && |head| <= |cur| + |rest| && NoInnerBreak(head, breaks)
    requires forall j :: |cur| <= j < |head| ==> head[j] == rest[j - |cur|]
    ensures |head| <= |cur| || !IsBreak(rest[0], breaks)
  {
    if |head| > |cur| {
      assert head[|cur|] == rest[0];
    }
  }

  lemma {:induction false} ManualFromUnique(cur: Section, rest: seq<Entry>, breaks: set<Value>, ss: seq<Section>)
    requires Flatten(ss) == cur + rest && AllNonEmpty(ss) && BreaksOpen(ss, breaks) && InnerFree(ss, breaks)
    requires ss != [] ==> |cur| <= |ss[0]|
    ensures ss == ManualFrom(cur, rest, breaks)
    decreases |rest|
  {
    if cur + rest == [] {
      FlattenEmpty(ss);
      return;
    }
    assert ss != [];
    var head, tail := ss[0], ss[1..];
    FirstSectionStartsWith(ss, cur, rest);
    assert AllNonEmpty(tail) && BreaksOpen(tail, breaks) && InnerFree(tail, breaks) by {
      assert forall k :: 0 <= k < |tail| ==> tail[k] == ss[k + 1];
    }
    if rest == [] {
      assert |head| == |cur| && Flatten(tail) == [];
      assert head == cur;
      FlattenEmpty(tail);
      assert ss == [head] + tail;
    } else if IsBreak(rest[0], breaks) && cur != [] {
      BreakEndsSection(head, cur, rest, breaks);
      assert head == cur;
      assert (cur + rest)[|cur|..] == rest == [rest[0]] + rest[1..];
      assert tail != [];
      ManualFromUnique([rest[0]], rest[1..], breaks, tail);
      assert ss == [head] + tail;
    } else {
      assert (cur + rest)[|cur|..] == rest;
      assert |head| == |cur| ==> Flatten(tail) == rest;
      assert Flatten(ss) == (cur + [rest[0]]) + rest[1..];
      ManualFromUnique(cur + [rest[0]], rest[1..], breaks, ss);
    }
  }

  /** ManualSections is a correct manual split, and the only one. */
  lemma ManualSectionsCharacterised(es: seq<Entry>, breaks: set<Value>, ss: seq<Section>)
    ensures IsManualSplit(es, breaks, ss) <==> ss == ManualSections(es, breaks)
  {
    ManualFromValid([], es, breaks);
    assert [] + es == es;
    if IsManualSplit(es, breaks, ss) {
      ManualFromUnique([], es, breaks, ss);
    }
  }

  /** The number of entries of es that are breaks. */
  function CountBreaks(es: seq<Entry>, breaks: set<Value>): nat {
    if es == [] then 0 else (if IsBreak(es[0], breaks) then 1 else 0) + CountBreaks(es[1..], breaks)
  }

  lemma {:induction false} ManualFromCount(cur: Section, rest: seq<Entry>, breaks: set<Value>)
    ensures |ManualFrom(cur, rest, breaks)| ==
      if cur != [] then 1 + CountBreaks(rest, breaks)
      else if rest == [] then 0
      else 1 + CountBreaks(rest[1..], breaks)
    decreases |rest|
  {
    if rest != [] {
      if IsBreak(rest[0], breaks) && cur != [] {
        ManualFromCount([rest[0]], rest[1..], breaks);
      } else {
        ManualFromCount(cur + [rest[0]], rest[1..], breaks);
      }
    }
  }

  /** One section, plus one for every break after the first entry; a break on
      the first entry opens no extra section. */
  lemma ManualSectionCount(es: seq<Entry>, breaks: set<Value>)
    requires es != []
    ensures |ManualSections(es, breaks)| == 1 + CountBreaks(es[1..], breaks)
    ensures CountBreaks(es[1..], breaks) == 0 ==> ManualSections(es, breaks) == [es]
  {
    ManualFromCount([], es, breaks);
    var ss := ManualSections(es, breaks);
    if CountBreaks(es[1..], breaks) == 0 {
      ManualSectionsCharacterised(es, breaks, ss);
      assert ss == [ss[0]] + [];
      FlattenCons(ss[0], []);
      assert ss[0] == Flatten(ss) == es;
    }
  }

  /** The manual split loop of create_pdfs.py:142-152. */
  method SplitManual(es: seq<Entry>, breaks: set<Value>) returns (sections: seq<Section>)
    ensures sections == ManualSections(es, breaks)
    ensures IsManualSplit(es, breaks, sections)
  {
    sections := [];
    var current: Section := [];
    for i := 0 to |es|
      invariant sections + ManualFrom(current, es[i..], breaks) == ManualSections(es, breaks)
    {
      assert es[i..][0] == es[i] && es[i..][1..] == es[i + 1..];
      ghost var closed := false;
      if IsBreak(es[i], breaks) && current != [] {
        ghost var later := ManualFrom([es[i]], es[i + 1..], breaks);
        assert ManualFrom(current, es[i..], breaks) == [current] + later;
        assert sections + ([current] + later) == (sections + [current]) + later;
        sections := sections + [current];
        current := [];
        closed := true;
      }
      current := current + [es[i]];
      assert closed ==> current == [es[i]];
    }
    if current != [] {
      sections := sections + [current];
    }
    ManualSectionsCharacterised(es, breaks, sections);
  }

  // ---------------------------------------------------------------------
  // Automatic mode (create_pdfs.py:155-176)
  // ---------------------------------------------------------------------

  /** The raw size of the section's files. */
  function Total(sec: Section): nat {
    if sec == [] then 0 else Total(sec[..|sec| - 1]) + sec[|sec| - 1].file.size
  }

  /** The estimate 0.85 * total exceeds maxBytes; scaled by 100 so it is exact. */
  predicate Exceeds(total: int, maxBytes: int) {
    85 * total > 100 * maxBytes
  }

  /** A section respects the bound, or is a single entry. */
  predicate FitsOrSingle(sec: Section, maxBytes: int) {
    |sec| == 1 || !Exceeds(Total(sec), maxBytes)
  }

  predicate AllFitOrSingle(ss: seq<Section>, maxBytes: int) {
    forall k :: 0 <= k < |ss| ==> FitsOrSingle(ss[k], maxBytes)
  }

  /** Every section but the last was closed because the next entry would
      have pushed its estimate over the bound. */
  predicate ClosedWhenFull(ss: seq<Section>, maxBytes: int) {
    |ss| <= 1 ||
    (ss[1] != [] && Exceeds(Total(ss[0]) + ss[1][0].file.size, maxBytes) && ClosedWhenFull(ss[1..], maxBytes))
  }

  /** A correct automatic split of es: it partitions es into non-empty
      sections, each within the bound unless it is a single entry, and no
      section could have taken the first entry of the next. */
  predicate IsAutoSplit(es: seq<Entry>, maxBytes: int, ss: seq<Section>) {
    Flatten(ss) == es && AllNonEmpty(ss) && AllFitOrSingle(ss, maxBytes) && ClosedWhenFull(ss, maxBytes)
  }

  function AutoFrom(cur: Section, rest: seq<Entry>, maxBytes: int): seq<Section>
    decreases |rest|
  {
    if rest == [] then (if cur == [] then [] else [cur])
    else if cur != [] && Exceeds(Total(cur) + rest[0].file.size, maxBytes) then [cur] + AutoFrom([rest[0]], rest[1..], maxBytes)
    else AutoFrom(cur + [rest[0]], rest[1..], maxBytes)
  }

  function AutoSections(es: seq<Entry>, maxBytes: int): (ss: seq<Section>)
    ensures IsAutoSplit(es, maxBytes, ss)
  {
    AutoFromValid([], es, maxBytes);
    assert [] + es == es;
    AutoFrom([], es, maxBytes)
  }

  lemma TotalAppend(sec: Section, e: Entry)
    ensures Total(sec + [e]) == Total(sec) + e.file.size
  {
    assert (sec + [e])[..|sec|] == sec;
  }

  /** Sizes are never negative, so a prefix never weighs more than the whole. */
  lemma {:induction false} TotalPrefix(sec: Section, i: nat)
    requires i <= |sec|
    ensures Total(sec[..i]) <= Total(sec)
    decreases |sec|
  {
    if i < |sec| {
      var init := sec[..|sec| - 1];
      TotalPrefix(init, i);
      assert init[..i] == sec[..i];
    } else {
      assert sec[..i] == sec;
    }
  }

  lemma {:induction false} AutoFromValid(cur: Section, rest: seq<Entry>, maxBytes: int)
    requires cur == [] || FitsOrSingle(cur, maxBytes)
    ensures var ss := AutoFrom(cur, rest, maxBytes);
      Flatten(ss) == cur + rest && AllNonEmpty(ss) && AllFitOrSingle(ss, maxBytes) && ClosedWhenFull(ss, maxBytes) &&
      (ss != [] ==> ss[0] != [] && ss[0][0] == (cur + rest)[0])
    decreases |rest|
  {
    if rest == [] {
      assert cur + rest == cur;
      if cur != [] {
        FlattenCons(cur, []);
        assert [cur] + [] == [cur];
      }
    } else if cur != [] && Exceeds(Total(cur) + rest[0].file.size, maxBytes) {
      var tail := AutoFrom([rest[0]], rest[1..], maxBytes);
      AutoFromValid([rest[0]], rest[1..], maxBytes);
      FlattenCons(cur, tail);
      assert [rest[0]] + rest[1..] == rest;
      var ss := [cur] + tail;
      assert ss[1..] == tail;
      assert forall k :: 0 < k < |ss| ==> ss[k] == tail[k - 1];
    } else {
      TotalAppend(cur, rest[0]);
      AutoFromValid(cur + [rest[0]], rest[1..], maxBytes);
      assert (cur + [rest[0]]) + rest[1..] == cur + rest;
    }
  }

  /** A section that begins with cur + [e] weighs at least Total(cur) + e's size. */
  lemma TotalOfExtension(head: Section, cur: Section, e: Entry)
    requires |cur| < |head| && head[..|cur|] == cur && head[|cur|] == e
    ensures Total(head) >= Total(cur) + e.file.size
  {
    assert head[..|cur| + 1] == cur + [e];
    TotalAppend(cur, e);
    TotalPrefix(head, |cur| + 1);
  }

  /** Dropping the first section of a correct automatic split leaves one. */
  lemma AutoSplitTail(ss: seq<Section>, maxBytes: int)
    requires ss != [] && AllNonEmpty(ss) && AllFitOrSingle(ss, maxBytes) && ClosedWhenFull(ss, maxBytes)
    ensures AllNonEmpty(ss[1..]) && AllFitOrSingle(ss[1..], maxBytes) && ClosedWhenFull(ss[1..], maxBytes)
  {
    assert forall k :: 0 <= k < |ss[1..]| ==> ss[1..][k] == ss[k + 1];
  }

  /** When the next entry would push cur over the bound, a correct split of
      cur + rest whose first section starts with cur closes cur there. */
  lemma AutoClosesFull(cur: Section, rest: seq<Entry>, maxBytes: int, ss: seq<Section>)
    requires Flatten(ss) == cur + rest && AllNonEmpty(ss) && AllFitOrSingle(ss, maxBytes)
    requires ss != [] && |cur| <= |ss[0]|
    requires cur != [] && rest != [] && Exceeds(Total(cur) + rest[0].file.size, maxBytes)
    ensures ss[0] == cur && ss[1..] != [] && Flatten(ss[1..]) == [rest[0]] + rest[1..]
  {
    var head := ss[0];
    FirstSectionStartsWith(ss, cur, rest);
    if |head| > |cur| {
      TotalOfExtension(head, cur, rest[0]);
    }
    assert |head| > |cur| ==> Exceeds(Total(head), maxBytes) && |head| > 1;
    assert (cur + rest)[|cur|..] == rest == [rest[0]] + rest[1..];
  }

  /** Otherwise the first section of such a split also holds the next entry. */
  lemma AutoGrows(cur: Section, rest: seq<Entry>, maxBytes: int, ss: seq<Section>)
    requires Flatten(ss) == cur + rest && AllNonEmpty(ss) && ClosedWhenFull(ss, maxBytes)
    requires ss != [] && |cur| <= |ss[0]|
    requires rest != [] && !(cur != [] && Exceeds(Total(cur) + rest[0].file.size, maxBytes))
    ensures |cur + [rest[0]]| <= |ss[0]| && Flatten(ss) == (cur + [rest[0]]) + rest[1..]
  {
    FirstSectionStartsWith(ss, cur, rest);
    assert (cur + rest)[|cur|..] == rest;
  }

  lemma {:induction false} AutoFromUnique(cur: Section, rest: seq<Entry>, maxBytes: int, ss: seq<Section>)
    requires Flatten(ss) == cur + rest && AllNonEmpty(ss) && AllFitOrSingle(ss, maxBytes) && ClosedWhenFull(ss, maxBytes)
    requires ss != [] ==> |cur| <= |ss[0]|
    ensures ss == AutoFrom(cur, rest, maxBytes)
    decreases |rest|
  {
    if cur + rest == [] {
      FlattenEmpty(ss);
      return;
    }
    assert ss != [];
    var head, tail := ss[0], ss[1..];
    AutoSplitTail(ss, maxBytes);
    if rest == [] {
      FirstSectionStartsWith(ss, cur, rest);
      assert |head| == |cur| && Flatten(tail) == [];
      assert head == cur;
      FlattenEmpty(tail);
      assert ss == [head] + tail;
    } else if cur != [] && Exceeds(Total(cur) + rest[0].file.size, maxBytes) {
      AutoClosesFull(cur, rest, maxBytes, ss);
      AutoFromUnique([rest[0]], rest[1..], maxBytes, tail);
      assert ss == [head] + tail;
    } else {
      AutoGrows(cur, rest, maxBytes, ss);
      AutoFromUnique(cur + [rest[0]], rest[1..], maxBytes, ss);
    }
  }

  /** AutoSections is a correct automatic split, and the only one. */
  lemma AutoSectionsCharacterised(es: seq<Entry>, maxBytes: int, ss: seq<Section>)
    ensures IsAutoSplit(es, maxBytes, ss) <==> ss == AutoSections(es, maxBytes)
  {
    AutoFromValid([], es, maxBytes);
    assert [] + es == es;
    if IsAutoSplit(es, maxBytes, ss) {
      AutoFromUnique([], es, maxBytes, ss);
    }
  }

  /** The automatic split loop of create_pdfs.py:158-174; current_size is
      kept as the raw byte total, the 0.85 factor being applied in Exceeds. */
  method SplitAuto(es: seq<Entry>, maxBytes: int) returns (sections: seq<Section>)
    ensures sections == AutoSections(es, maxBytes)
    ensures IsAutoSplit(es, maxBytes, sections)
  {
    sections := [];
    var current: Section := [];
    var currentSize: nat := 0;
    for i := 0 to |es|
      invariant currentSize == Total(current)
      invariant sections + AutoFrom(current, es[i..], maxBytes) == AutoSections(es, maxBytes)
    {
      assert es[i..][0] == es[i] && es[i..][1..] == es[i + 1..];
      var size := es[i].file.size;
      ghost var closed := false;
      if Exceeds(currentSize + size, maxBytes) && current != [] {
        ghost var later := AutoFrom([es[i]], es[i + 1..], maxBytes);
        assert AutoFrom(current, es[i..], maxBytes) == [current] + later;
        assert sections + ([current] + later) == (sections + [current]) + later;
        sections := sections + [current];
        current := [];
        currentSize := 0;
        closed := true;
      }
      TotalAppend(current, es[i]);
      current := current + [es[i]];
      currentSize := currentSize + size;
      assert closed ==> current == [es[i]];
    }
    if current != [] {
      sections := sections + [current];
    }
    AutoSectionsCharacterised(es, maxBytes, sections);
  }
}
