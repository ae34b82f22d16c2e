/** The PDF side of create_pdfs.py: the page-collection loop of create_pdf,
    the part names, and the whole of main from the review file to the list of
    PDFs written. Decoding an image is an oracle `decodes` on its file name. */
module ArchiveWriter {
  import opened Optional
  import opened PyJson
  import opened Orientation
  import opened Listing
  import opened ReviewArtifact
  import opened CorrectionPipeline
  import opened Paginator

  /** A page of a PDF: the image it comes from and the turn applied to it. */
  datatype Page = Page(name: string, turn: Turn)

  /** The page an entry becomes once it is decoded. */
  function PageOf(e: Entry): Page {
    Page(e.file.name, FromAngle(e.rotation))
  }

  /** The pages of a section: one per entry that decodes, in section order. */
  function Pages(section: seq<Entry>, decodes: string -> bool): (r: seq<Page>)
    ensures |r| <= |section|
  {
    if section == [] then []
    else
      var last := section[|section| - 1];
      Pages(section[..|section| - 1], decodes) + (if decodes(last.file.name) then [PageOf(last)] else [])
  }

  /** create_pdf (create_pdfs.py:33-78): `count` is the number of pages
      written, and `document` the PDF, absent when no image decoded. */
  method CreatePdf(section: seq<Entry>, decodes: string -> bool) returns (count: nat, document: Option<seq<Page>>)
    ensures count == |Pages(section, decodes)|
    ensures document == if count == 0 then None else Some(Pages(section, decodes))
  {
    if section == [] {
      return 0, None;
    }
    var images: seq<Page> := [];
    var first: Option<Page> := None;
    for i := 0 to |section|
      invariant first.None? ==> images == [] && Pages(section[..i], decodes) == []
      invariant first.Some? ==> Pages(section[..i], decodes) == [first.value] + images
    {
      assert section[..i + 1][..i] == section[..i];
      var entry := section[i];
      if decodes(entry.file.name) {
        var turn := Identity;
        if Truthy(entry.rotation) {
          turn := FromAngle(entry.rotation);
        }
        FalsyIsIdentity(entry.rotation);
        var page := Page(entry.file.name, turn);
        if first.None? {
          first := Some(page);
        } else {
          images := images + [page];
        }
      }
    }
    assert section[..|section|] == section;
    if first.Some? {
      document := Some([first.value] + images);
      count := |images| + 1;
    } else {
      document := None;
      count := 0;
    }
  }

  lemma {:induction false} PagesAppend(a: seq<Entry>, b: seq<Entry>, decodes: string -> bool)
    ensures Pages(a + b, decodes) == Pages(a, decodes) + Pages(b, decodes)
    decreases |b|
  {
    if b == [] {
      assert a + b == a;
    } else {
      var init := b[..|b| - 1];
      PagesAppend(a, init, decodes);
      assert (a + b)[..|a + b| - 1] == a + init;
    }
  }

  /** A page comes from an entry of the section that decodes, and every such entry gives one. */
  lemma {:induction false} PagesMembers(section: seq<Entry>, decodes: string -> bool, e: Entry)
    ensures e in section && decodes(e.file.name) ==> PageOf(e) in Pages(section, decodes)
    ensures forall p :: p in Pages(section, decodes) ==>
      exists i :: 0 <= i < |section| && decodes(section[i].file.name) && p == PageOf(section[i])
  {
    if section != [] {
      var init := section[..|section| - 1];
      PagesMembers(init, decodes, e);
      assert section == init + [section[|section| - 1]];
      forall p | p in Pages(section, decodes)
        ensures exists i :: 0 <= i < |section| && decodes(section[i].file.name) && p == PageOf(section[i])
      {
        if p in Pages(init, decodes) {
          var i :| 0 <= i < |init| && decodes(init[i].file.name) && p == PageOf(init[i]);
          assert section[i] == init[i];
        } else {
          assert p == PageOf(section[|section| - 1]);
        }
      }
    }
  }

  /** When every image decodes, the pages are the section, entry for entry. */
  lemma {:induction false} PagesAllDecode(section: seq<Entry>, decodes: string -> bool)
    requires forall i :: 0 <= i < |section| ==> decodes(section[i].file.name)
    ensures |Pages(section, decodes)| == |section|
    ensures forall i :: 0 <= i < |section| ==> Pages(section, decodes)[i] == PageOf(section[i])
  {
    if section != [] {
      PagesAllDecode(section[..|section| - 1], decodes);
    }
  }

  /** When no image decodes there are no pages, so no PDF is written. */
  lemma {:induction false} PagesNoneDecode(section: seq<Entry>, decodes: string -> bool)
    requires forall i :: 0 <= i < |section| ==> !decodes(section[i].file.name)
    ensures Pages(section, decodes) == []
  {
    if section != [] {
      PagesNoneDecode(section[..|section| - 1], decodes);
    }
  }

  // ---------------------------------------------------------------------
  // Part names (create_pdfs.py:184-186)
  // ---------------------------------------------------------------------

  function Digit(d: nat): (c: char)
    requires d < 10
    ensures '0' <= c <= '9'
  {
    (48 + d) as char
  }

  /** The decimal numeral of n, as an f-string writes it. */
  function Decimal(n: nat): (s: string)
    ensures |s| >= 1
    ensures n >= 10 ==> |s| >= 2
    // No leading zero: only 0 itself is written starting with '0'.
    ensures s[0] == '0' ==> n == 0
    ensures forall i :: 0 <= i < |s| ==> '0' <= s[i] <= '9'
    decreases n
  {
    if n < 10 then [Digit(n)] else Decimal(n / 10) + [Digit(n % 10)]
  }

  /** The number a string of decimal digits denotes. */
  function DecimalValue(s: string): nat
    requires forall i :: 0 <= i < |s| ==> '0' <= s[i] <= '9'
  {
    if s == [] then 0
    else DecimalValue(s[..|s| - 1]) * 10 + (s[|s| - 1] as int - 48)
  }

  lemma {:induction false} DecimalRoundTrip(n: nat)
    ensures DecimalValue(Decimal(n)) == n
    decreases n
  {
    if n >= 10 {
      var s := Decimal(n);
      DecimalRoundTrip(n / 10);
      assert s[..|s| - 1] == Decimal(n / 10);
    }
  }

  /** The name of part `part`: `<prefix>_part<part>.pdf`. */
  function PartName(prefix: string, part: nat): (name: string)
    ensures |name| >= |prefix| + 10
    ensures name[..|prefix|] == prefix && name[|prefix|..|prefix| + 5] == "_part" && name[|name| - 4..] == ".pdf"
    // No leading zero: the digits start with '0' only for part 0.
    ensures name[|prefix| + 5] == '0' ==> part == 0
    // The part number can be read back from the digits between the two.
    ensures var digits := name[|prefix| + 5..|name| - 4];
      (forall i :: 0 <= i < |digits| ==> '0' <= digits[i] <= '9') && DecimalValue(digits) == part
  {
    DecimalRoundTrip(part);
    var name := prefix + "_part" + Decimal(part) + ".pdf";
    assert name[|prefix| + 5..|name| - 4] == Decimal(part);
    name
  }

  /** Different parts get different file names. */
  lemma PartNameInjective(prefix: string, a: nat, b: nat)
    requires PartName(prefix, a) == PartName(prefix, b)
    ensures a == b
  {
    var k := |prefix| + 5;
    var da, db := Decimal(a), Decimal(b);
    assert |da| == |db|;
    assert da == PartName(prefix, a)[k..k + |da|];
    assert db == PartName(prefix, b)[k..k + |db|];
    DecimalRoundTrip(a);
    DecimalRoundTrip(b);
  }

  // ---------------------------------------------------------------------
  // main (create_pdfs.py:101-193)
  // ---------------------------------------------------------------------

  /** A written PDF: its part number, its file name and its pages. */
  datatype Pdf = Pdf(part: nat, name: string, pages: seq<Page>)

  /** 200 MB means 200 * 1024 * 1024 bytes. */
  function MaxBytes(maxSize: int): (bytes: int)
    // A whole number of mebibytes, and exactly maxSize of them.
    ensures bytes % 1048576 == 0 && bytes / 1048576 == maxSize
  {
    maxSize * 1024 * 1024
  }

  /** The sections of the surviving entries: none when nothing survives,
      the manual split when the review names any section break, the
      automatic split otherwise. */
  function Sections(entries: seq<Entry>, review: Review, maxSize: int): (ss: seq<Section>)
    // Either way the sections partition the entries into non-empty runs.
    ensures Flatten(ss) == entries && AllNonEmpty(ss)
    ensures entries != [] && review.breaks != {} ==> IsManualSplit(entries, review.breaks, ss)
    ensures entries != [] && review.breaks == {} ==> IsAutoSplit(entries, MaxBytes(maxSize), ss)
  {
    if entries == [] then []
    else if review.breaks != {} then ManualSections(entries, review.breaks)
    else AutoSections(entries, MaxBytes(maxSize))
  }

  /** How many of the sections have at least one image that decodes. */
  function Readable(ss: seq<Section>, decodes: string -> bool): nat {
    if ss == [] then 0 else (if Pages(ss[0], decodes) == [] then 0 else 1) + Readable(ss[1..], decodes)
  }

  /** The PDFs written for sections ss, the first of which is part `part`:
      a section none of whose images decodes writes nothing. */
  function Documents(ss: seq<Section>, prefix: string, decodes: string -> bool, part: nat): (r: seq<Pdf>)
    ensures |r| <= |ss|
    decreases |ss|
  {
    if ss == [] then []
    else
      var pages := Pages(ss[0], decodes);
      (if pages == [] then [] else [Pdf(part, PartName(prefix, part), pages)]) +
      Documents(ss[1..], prefix, decodes, part + 1)
  }

  /** What a run of create_pdfs.py writes, or the exception that stops it. */
  function Run(reviewFile: Option<Value>, files: seq<File>, prefix: string, maxSize: int, decodes: string -> bool): (r: Result<seq<Pdf>>)
    // A review file that does not load stops the run with its exception;
    // after that, only pairing the survivors with their rotations can raise.
    ensures Load(reviewFile).Err? ==> r == Err(Load(reviewFile).error)
    ensures Load(reviewFile).Ok? ==> (r.Ok? <==> Prepare(files, Load(reviewFile).value).Ok?)
    ensures r.Ok? ==> |r.value| <= |files|
  {
    var review :- Load(reviewFile);
    var entries :- Prepare(files, review);
    var ss := Sections(entries, review, maxSize);
    SectionCount(ss);
    Ok(Documents(ss, prefix, decodes, 1))
  }

  /** main itself. */
  method CreatePdfs(reviewFile: Option<Value>, files: seq<File>, prefix: string, maxSize: int, decodes: string -> bool)
    returns (r: Result<seq<Pdf>>)
    ensures r == Run(reviewFile, files, prefix, maxSize, decodes)
  {
    var loaded := Load(reviewFile);
    if loaded.Err? {
      return Err(loaded.error);
    }
    var review := loaded.value;
    var prepared := FilterDiscards(files, review);
    if prepared.Err? {
      return Err(prepared.error);
    }
    var images := prepared.value;
    if images == [] {
      return Ok([]);
    }
    var sections: seq<Section>;
    if review.breaks != {} {
      sections := SplitManual(images, review.breaks);
    } else {
      var maxBytes := maxSize * 1024 * 1024;
      sections := SplitAuto(images, maxBytes);
    }
    assert sections == Sections(images, review, maxSize);
    var pdfs := WriteParts(sections, prefix, decodes);
    r := Ok(pdfs);
  }

  /** The loop of main over the sections: part i + 1 is written from section i. */
  method WriteParts(sections: seq<Section>, prefix: string, decodes: string -> bool) returns (pdfs: seq<Pdf>)
    ensures pdfs == Documents(sections, prefix, decodes, 1)
  {
    pdfs := [];
    for i := 0 to |sections|
      invariant pdfs + Documents(sections[i..], prefix, decodes, i + 1) == Documents(sections, prefix, decodes, 1)
    {
      var partNum := i + 1;
      var outputPath := PartName(prefix, partNum);
      var count, document := CreatePdf(sections[i], decodes);
      WritePartStep(sections, i, prefix, decodes, pdfs, document);
      if document.Some? {
        pdfs := pdfs + [Pdf(partNum, outputPath, document.value)];
      }
    }
    assert sections[|sections|..] == [];
  }

  /** Section i is written as part i + 1, unless none of its images decodes. */
  lemma DocumentsStep(ss: seq<Section>, i: nat, prefix: string, decodes: string -> bool)
    requires i < |ss|
    ensures var pages := Pages(ss[i], decodes);
      Documents(ss[i..], prefix, decodes, i + 1) ==
        (if pages == [] then [] else [Pdf(i + 1, PartName(prefix, i + 1), pages)]) +
        Documents(ss[i + 1..], prefix, decodes, i + 2)
  {
    assert ss[i..][0] == ss[i] && ss[i..][1..] == ss[i + 1..];
  }

  /** Writing part i + 1 from section i keeps the loop on track. */
  lemma WritePartStep(ss: seq<Section>, i: nat, prefix: string, decodes: string -> bool, pdfs: seq<Pdf>, document: Option<seq<Page>>)
    requires i < |ss|
    requires pdfs + Documents(ss[i..], prefix, decodes, i + 1) == Documents(ss, prefix, decodes, 1)
    requires document == if Pages(ss[i], decodes) == [] then None else Some(Pages(ss[i], decodes))
    ensures var next := if document.Some? then pdfs + [Pdf(i + 1, PartName(prefix, i + 1), document.value)] else pdfs;
      next + Documents(ss[i + 1..], prefix, decodes, i + 2) == Documents(ss, prefix, decodes, 1)
  {
    DocumentsStep(ss, i, prefix, decodes);
    var rest := Documents(ss[i + 1..], prefix, decodes, i + 2);
    if document.Some? {
      assert pdfs + ([Pdf(i + 1, PartName(prefix, i + 1), document.value)] + rest) ==
        (pdfs + [Pdf(i + 1, PartName(prefix, i + 1), document.value)]) + rest;
    } else {
      assert [] + rest == rest;
    }
  }

  /** All the pages of a list of PDFs, PDF after PDF. */
  function AllPages(pdfs: seq<Pdf>): seq<Page> {
    if pdfs == [] then [] else pdfs[0].pages + AllPages(pdfs[1..])
  }

  lemma AllPagesAppend(a: seq<Pdf>, b: seq<Pdf>)
    ensures AllPages(a + b) == AllPages(a) + AllPages(b)
  {
    if a != [] {
      assert (a + b)[1..] == a[1..] + b;
      AllPagesAppend(a[1..], b);
    } else {
      assert a + b == b;
    }
  }

  /** Every PDF is named after its part, which lies among the parts of the
      sections, and holds the (non-empty) pages of its section. */
  lemma {:induction false} DocumentsParts(ss: seq<Section>, prefix: string, decodes: string -> bool, part: nat)
    ensures forall d :: d in Documents(ss, prefix, decodes, part) ==>
      part <= d.part < part + |ss| && d.name == PartName(prefix, d.part) &&
      d.pages != [] && d.pages == Pages(ss[d.part - part], decodes)
    decreases |ss|
  {
    if ss != [] {
      var pages := Pages(ss[0], decodes);
      var head: seq<Pdf> := if pages == [] then [] else [Pdf(part, PartName(prefix, part), pages)];
      var tail := Documents(ss[1..], prefix, decodes, part + 1);
      DocumentsParts(ss[1..], prefix, decodes, part + 1);
      var ds := head + tail;
      assert Documents(ss, prefix, decodes, part) == ds;
      forall d | d in ds
        ensures part <= d.part < part + |ss| && d.name == PartName(prefix, d.part) &&
          d.pages != [] && d.pages == Pages(ss[d.part - part], decodes)
      {
        if d in tail {
          assert ss[1..][d.part - (part + 1)] == ss[d.part - part];
        }
      }
    }
  }

  /** Exactly one PDF per section with a page that decodes. */
  lemma {:induction false} DocumentsCount(ss: seq<Section>, prefix: string, decodes: string -> bool, part: nat)
    ensures |Documents(ss, prefix, decodes, part)| == Readable(ss, decodes)
    decreases |ss|
  {
    if ss != [] {
      DocumentsCount(ss[1..], prefix, decodes, part + 1);
    }
  }

  /** Part numbers strictly increase along a list of PDFs. */
  predicate Increasing(ds: seq<Pdf>) {
    forall i, j :: 0 <= i < j < |ds| ==> ds[i].part < ds[j].part
  }

  /** The PDFs come out in increasing order of part, from `part` on. */
  lemma {:induction false} DocumentsOrdered(ss: seq<Section>, prefix: string, decodes: string -> bool, part: nat)
    ensures Increasing(Documents(ss, prefix, decodes, part))
    ensures forall d :: d in Documents(ss, prefix, decodes, part) ==> part <= d.part
    decreases |ss|
  {
    if ss != [] {
      var pages := Pages(ss[0], decodes);
      var tail := Documents(ss[1..], prefix, decodes, part + 1);
      DocumentsOrdered(ss[1..], prefix, decodes, part + 1);
      if pages != [] {
        IncreasingCons(Pdf(part, PartName(prefix, part), pages), tail);
      }
    }
  }

  /** A PDF whose part is below every part of an increasing list can go first. */
  lemma IncreasingCons(d: Pdf, ds: seq<Pdf>)
    requires Increasing(ds) && forall e :: e in ds ==> d.part < e.part
    ensures Increasing([d] + ds)
  {
    var all := [d] + ds;
    forall i, j | 0 <= i < j < |all| ensures all[i].part < all[j].part {
      assert all[j] == ds[j - 1] && ds[j - 1] in ds;
      if i >= 1 {
        assert all[i] == ds[i - 1];
      }
    }
  }

  /** Together the PDFs hold the pages of all the sections, in order. */
  lemma {:induction false} DocumentsPages(ss: seq<Section>, prefix: string, decodes: string -> bool, part: nat)
    ensures AllPages(Documents(ss, prefix, decodes, part)) == Pages(Flatten(ss), decodes)
    decreases |ss|
  {
    if ss != [] {
      var pages := Pages(ss[0], decodes);
      var head: seq<Pdf> := if pages == [] then [] else [Pdf(part, PartName(prefix, part), pages)];
      var tail := Documents(ss[1..], prefix, decodes, part + 1);
      DocumentsPages(ss[1..], prefix, decodes, part + 1);
      AllPagesAppend(head, tail);
      PagesAppend(ss[0], Flatten(ss[1..]), decodes);
      if pages != [] {
        assert AllPages(head) == pages + AllPages([]);
      }
    }
  }

  /** What a successful run writes: nothing when no image survives; else PDFs
      with distinct names `<prefix>_part<N>.pdf`, N increasing from 1, that hold
      between them every surviving image that decodes, each once and in
      directory order. */
  lemma RunOutput(reviewFile: Option<Value>, files: seq<File>, prefix: string, maxSize: int, decodes: string -> bool)
    requires Run(reviewFile, files, prefix, maxSize, decodes).Ok?
    ensures var review := Load(reviewFile).value;
      var entries := Prepare(files, review).value;
      var pdfs := Run(reviewFile, files, prefix, maxSize, decodes).value;
      (entries == [] ==> pdfs == []) &&
      AllPages(pdfs) == Pages(entries, decodes) &&
      (forall i :: 0 <= i < |pdfs| ==> pdfs[i].part >= 1 && pdfs[i].name == PartName(prefix, pdfs[i].part)) &&
      (forall i, j :: 0 <= i < j < |pdfs| ==> pdfs[i].part < pdfs[j].part && pdfs[i].name != pdfs[j].name)
  {
    var review := Load(reviewFile).value;
    var entries := Prepare(files, review).value;
    var ss := Sections(entries, review, maxSize);
    DocumentsParts(ss, prefix, decodes, 1);
    DocumentsOrdered(ss, prefix, decodes, 1);
    DocumentsPages(ss, prefix, decodes, 1);
    var pdfs := Documents(ss, prefix, decodes, 1);
    assert Run(reviewFile, files, prefix, maxSize, decodes) == Ok(pdfs);
    DocumentsNamesDistinct(ss, prefix, decodes, 1);
  }

  /** No two PDFs get the same file name. */
  lemma DocumentsNamesDistinct(ss: seq<Section>, prefix: string, decodes: string -> bool, part: nat)
    ensures var ds := Documents(ss, prefix, decodes, part);
      forall i, j :: 0 <= i < j < |ds| ==> ds[i].name != ds[j].name
  {
    var ds := Documents(ss, prefix, decodes, part);
    DocumentsParts(ss, prefix, decodes, part);
    DocumentsOrdered(ss, prefix, decodes, part);
    forall i, j | 0 <= i < j < |ds|
      ensures ds[i].name != ds[j].name
    {
      assert ds[i] in ds && ds[j] in ds;
      if ds[i].name == ds[j].name {
        PartNameInjective(prefix, ds[i].part, ds[j].part);
      }
    }
  }
}
