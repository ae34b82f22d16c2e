/** Whole runs of create_pdfs.py on small inputs. */
module Scenarios {
  import opened Optional
  import opened PyJson
  import opened Orientation
  import opened Listing
  import opened ReviewArtifact
  import opened CorrectionPipeline
  import opened Paginator
  import opened ArchiveWriter

  /** The review file of the worked example: a.jpg turned by 90 degrees,
      a section break before c.jpg, b.jpg discarded. */
  const ExampleReview := Obj(map[
    "corrections" := Obj(map["a.jpg" := Num(90)]),
    "sectionBreaks" := Arr([Str("c.jpg")]),
    "discards" := Arr([Str("b.jpg")])])

  const ExampleFiles := [File("a.jpg", 10), File("b.jpg", 20), File("c.jpg", 30), File("d.jpg", 40)]

  /** `set([v])` is `{v}`. */
  lemma SingletonList(v: Value)
    requires Hashable(v)
    ensures ToSet(Arr([v])) == Ok({v})
  {
    var r := ToSet(Arr([v]));
    assert v in [v];
    assert r.value == {v};
  }

  /** The review loads into one correction, one break and one discard. */
  lemma ExampleLoads()
    ensures Load(Some(ExampleReview)) == Ok(Review(Obj(map["a.jpg" := Num(90)]), {Str("c.jpg")}, {Str("b.jpg")}))
  {
    SingletonList(Str("c.jpg"));
    SingletonList(Str("b.jpg"));
  }

  /** b.jpg is dropped, a.jpg keeps its 90 and the others get 0. */
  lemma ExamplePrepared()
    ensures Prepare(ExampleFiles, Load(Some(ExampleReview)).value) == Ok(ExampleEntries)
  {
    ExampleLoads();
    var review := Load(Some(ExampleReview)).value;
    var files := ExampleFiles;
    assert files[..1][..0] == [];
    assert files[..2][..1] == files[..1] && files[..3][..2] == files[..2] && files[..3] == files[..|files| - 1];
    assert Kept(files[..1], review.discards) == [files[0]];
    assert Kept(files[..2], review.discards) == [files[0]];
    assert Kept(files[..3], review.discards) == [files[0], files[2]];
    assert Kept(files, review.discards) == [files[0], files[2], files[3]];
    var kept := [files[0], files[2], files[3]];
    var m := review.corrections.fields;
    assert RotationOf(m, "a.jpg") == Num(90) && RotationOf(m, "c.jpg") == Num(0) && RotationOf(m, "d.jpg") == Num(0);
    assert Paired(kept, m) == ExampleEntries;
  }

  /** The break before c.jpg closes the section holding a.jpg. */
  lemma ExampleSections()
    ensures Sections(ExampleEntries, Load(Some(ExampleReview)).value, 200) == [ExampleEntries[..1], ExampleEntries[1..]]
  {
    ExampleLoads();
    var review := Load(Some(ExampleReview)).value;
    var entries := ExampleEntries;
    var b := review.breaks;
    assert entries[2..][1..] == [] && [entries[1]] + [entries[2]] == entries[1..];
    assert entries[1..][1..] == entries[2..];
    assert ManualFrom([entries[1]], entries[2..], b) == [entries[1..]];
    assert IsBreak(entries[1], b) && [entries[0]] == entries[..1];
    assert ManualFrom([entries[0]], entries[1..], b) == [entries[..1], entries[1..]];
    assert [] + [entries[0]] == [entries[0]];
    assert ManualFrom([], entries, b) == ManualFrom([entries[0]], entries[1..], b);
    assert Sections(entries, review, 200) == ManualSections(entries, b);
  }

  /** The entries of the worked example and its two sections. */
  const ExampleEntries := [Entry(ExampleFiles[0], Num(90)), Entry(ExampleFiles[2], Num(0)), Entry(ExampleFiles[3], Num(0))]

  const ExamplePdfs := [
    Pdf(1, "scan_part1.pdf", [Page("a.jpg", QuarterCcw)]),
    Pdf(2, "scan_part2.pdf", [Page("c.jpg", Identity), Page("d.jpg", Identity)])]

  /** The first two part names. */
  lemma ExamplePartNames()
    ensures PartName("scan", 1) == "scan_part1.pdf" && PartName("scan", 2) == "scan_part2.pdf"
  {
    assert Decimal(1) == "1" && Decimal(2) == "2";
  }

  /** The pages of the two sections. */
  lemma ExamplePages(decodes: string -> bool)
    requires decodes("a.jpg") && decodes("c.jpg") && decodes("d.jpg")
    ensures Pages(ExampleEntries[..1], decodes) == [Page("a.jpg", QuarterCcw)]
    ensures Pages(ExampleEntries[1..], decodes) == [Page("c.jpg", Identity), Page("d.jpg", Identity)]
  {
    var s0, s1 := ExampleEntries[..1], ExampleEntries[1..];
    assert s0[..0] == [] && s1[..1][..0] == [] && s1[..1] == s1[..|s1| - 1];
    assert Pages(s1[..1], decodes) == [Page("c.jpg", Identity)];
  }

  /** With every image decoding, the two sections become two PDFs. */
  lemma ExampleDocuments(decodes: string -> bool)
    requires decodes("a.jpg") && decodes("c.jpg") && decodes("d.jpg")
    ensures Documents([ExampleEntries[..1], ExampleEntries[1..]], "scan", decodes, 1) == ExamplePdfs
  {
    var entries := ExampleEntries;
    var ss := [entries[..1], entries[1..]];
    ExamplePartNames();
    ExamplePages(decodes);
    assert ss[1..][1..] == [];
    assert Documents(ss[1..], "scan", decodes, 2) == ExamplePdfs[1..];
  }

  /** Two PDFs come out: part 1 holds a.jpg turned a quarter counter-clockwise,
      part 2 holds c.jpg and d.jpg as they are. */
  lemma ExampleRun(decodes: string -> bool)
    requires decodes("a.jpg") && decodes("c.jpg") && decodes("d.jpg")
    ensures Run(Some(ExampleReview), ExampleFiles, "scan", 200, decodes) == Ok(ExamplePdfs)
  {
    ExamplePrepared();
    ExampleSections();
    ExampleDocuments(decodes);
    var review := Load(Some(ExampleReview)).value;
    assert Run(Some(ExampleReview), ExampleFiles, "scan", 200, decodes) ==
      Ok(Documents(Sections(ExampleEntries, review, 200), "scan", decodes, 1));
  }

  /** Automatic mode with a 1000-byte budget: two 600-byte images are
      estimated at 510 bytes each, 1020 together is over the budget, so each
      goes into a section of its own. */
  lemma AutoExample(a: Entry, b: Entry)
    requires a.file.size == 600 && b.file.size == 600
    ensures AutoSections([a, b], 1000) == [[a], [b]]
  {
    assert [a][..0] == [];
    assert Total([a]) == 600;
    assert [a, b][1..] == [b] && [b][1..] == [];
    assert AutoFrom([a], [b], 1000) == [[a]] + AutoFrom([b], [], 1000);
    assert [] + [a] == [a];
    assert AutoFrom([], [a, b], 1000) == AutoFrom([a], [b], 1000);
  }

  /** An empty directory writes no PDF and raises nothing, whatever the
      review file, provided it loads. */
  lemma EmptyDirectory(reviewFile: Option<Value>, prefix: string, maxSize: int, decodes: string -> bool)
    requires Load(reviewFile).Ok?
    ensures Run(reviewFile, [], prefix, maxSize, decodes) == Ok([])
  {
    var review := Load(reviewFile).value;
    assert Prepare([], review) == Ok([]);
    assert Sections([], review, maxSize) == [];
    assert Documents([], prefix, decodes, 1) == [];
    assert Run(reviewFile, [], prefix, maxSize, decodes) == Ok(Documents(Sections([], review, maxSize), prefix, decodes, 1));
  }
}
