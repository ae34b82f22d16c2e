/** The discard filter of create_pdfs.py: drop discarded files and pair every
    surviving file with its rotation correction, in directory order. */
module CorrectionPipeline {
  import opened PyJson
  import opened Listing
  import opened ReviewArtifact

  /** A surviving image and the correction recorded for it (0 when none is). */
  datatype Entry = Entry(file: File, rotation: Value)

  predicate Discarded(f: File, discards: set<Value>) {
    Str(f.name) in discards
  }

  /** The files that are not discarded, in their original order. */
  function Kept(files: seq<File>, discards: set<Value>): (r: seq<File>)
    ensures |r| <= |files|
  {
    if files == [] then []
    else
      var last := files[|files| - 1];
      Kept(files[..|files| - 1], discards) + (if Discarded(last, discards) then [] else [last])
  }

  /** How many of the files are discarded. */
  function CountDiscarded(files: seq<File>, discards: set<Value>): nat {
    if files == [] then 0
    else CountDiscarded(files[..|files| - 1], discards) + (if Discarded(files[|files| - 1], discards) then 1 else 0)
  }

  /** `corrections.get(name, 0)`. */
  function RotationOf(m: map<string, Value>, name: string): Value {
    Get(m, name, Num(0))
  }

  /** Each kept file with its correction. */
  function Paired(kept: seq<File>, m: map<string, Value>): seq<Entry> {
    seq(|kept|, i requires 0 <= i < |kept| => Entry(kept[i], RotationOf(m, kept[i].name)))
  }

  /** What create_pdfs.py:126-131 leaves in `images`. Looking a name up in a
      correction value that is not an object raises, but only once a file
      survives the filter. */
  function Prepare(files: seq<File>, review: Review): (r: Result<seq<Entry>>)
    ensures r.Err? <==> Kept(files, review.discards) != [] && !review.corrections.Obj?
    ensures r.Ok? ==> |r.value| == |Kept(files, review.discards)|
    ensures r.Ok? ==> forall i :: 0 <= i < |r.value| ==>
      review.corrections.Obj? &&
      r.value[i].file == Kept(files, review.discards)[i] &&
      r.value[i].rotation == RotationOf(review.corrections.fields, r.value[i].file.name)
  {
    var kept := Kept(files, review.discards);
    if kept == [] then Ok([])
    else if review.corrections.Obj? then Ok(Paired(kept, review.corrections.fields))
    else Err(NoGet)
  }

  /** The filter loop itself. */
  method FilterDiscards(files: seq<File>, review: Review) returns (r: Result<seq<Entry>>)
    ensures r == Prepare(files, review)
  {
    var images: seq<Entry> := [];
    for i := 0 to |files|
      invariant review.corrections.Obj? ==> images == Paired(Kept(files[..i], review.discards), review.corrections.fields)
      invariant !review.corrections.Obj? ==> images == [] && Kept(files[..i], review.discards) == []
    {
      assert files[..i + 1][..i] == files[..i];
      var file := files[i];
      if Str(file.name) !in review.discards {
        if !review.corrections.Obj? {
          KeptMembers(files, review.discards, file);
          return Err(NoGet);
        }
        var rotation := Get(review.corrections.fields, file.name, Num(0));
        images := images + [Entry(file, rotation)];
      }
    }
    assert files[..|files|] == files;
    r := Ok(images);
  }

  /** A file survives exactly when it is in the input and not discarded. */
  lemma {:induction false} KeptMembers(files: seq<File>, discards: set<Value>, f: File)
    ensures f in Kept(files, discards) <==> f in files && !Discarded(f, discards)
  {
    if files != [] {
      var init := files[..|files| - 1];
      KeptMembers(init, discards, f);
      assert files == init + [files[|files| - 1]];
    }
  }

  /** The output is the input less its discarded files. */
  lemma {:induction false} KeptLength(files: seq<File>, discards: set<Value>)
    ensures |Kept(files, discards)| == |files| - CountDiscarded(files, discards)
  {
    if files != [] {
      KeptLength(files[..|files| - 1], discards);
    }
  }

  /** The names of a listing, as a set of values. */
  function NameValues(files: seq<File>): set<Value> {
    set i | 0 <= i < |files| :: Str(files[i].name)
  }

  /** The names of files + [f] are those of files and f's. */
  lemma NameValuesSnoc(files: seq<File>)
    requires files != []
    ensures NameValues(files) == NameValues(files[..|files| - 1]) + {Str(files[|files| - 1].name)}
  {
    var n := |files| - 1;
    var init := files[..n];
    forall v | v in NameValues(files) ensures v in NameValues(init) + {Str(files[n].name)} {
      var i :| 0 <= i < |files| && v == Str(files[i].name);
      if i < n { assert v == Str(init[i].name); }
    }
    forall v | v in NameValues(init) ensures v in NameValues(files) {
      var i :| 0 <= i < |init| && v == Str(init[i].name);
      assert v == Str(files[i].name);
    }
  }

  /** In a duplicate-free listing the last name is not among the earlier ones,
      and the earlier ones are duplicate-free. */
  lemma DistinctSnoc(files: seq<File>)
    requires files != [] && Distinct(Names(files))
    ensures Distinct(Names(files[..|files| - 1]))
    ensures Str(files[|files| - 1].name) !in NameValues(files[..|files| - 1])
  {
    var n := |files| - 1;
    var init := files[..n];
    forall i, j | 0 <= i < j < |init| ensures Names(init)[i] != Names(init)[j] {
      assert Names(files)[i] != Names(files)[j];
    }
    forall i | 0 <= i < |init| ensures Str(init[i].name) != Str(files[n].name) {
      assert Names(files)[i] != Names(files)[n];
    }
  }

  /** For a listing whose names are distinct, the discarded count is the number
      of discard marks that name a file of the listing. */
  lemma {:induction false} CountDiscardedIsIntersection(files: seq<File>, discards: set<Value>)
    requires Distinct(Names(files))
    ensures CountDiscarded(files, discards) == |NameValues(files) * discards|
  {
    if files == [] {
      assert NameValues(files) == {};
    } else {
      var n := |files| - 1;
      var init := files[..n];
      DistinctSnoc(files);
      CountDiscardedIsIntersection(init, discards);
      NameValuesSnoc(files);
      var last := Str(files[n].name);
      if last in discards {
        assert NameValues(files) * discards == (NameValues(init) * discards) + {last};
      } else {
        assert NameValues(files) * discards == NameValues(init) * discards;
      }
    }
  }

  /** Filtering a sorted listing leaves it sorted. */
  lemma {:induction false} KeptSorted(files: seq<File>, discards: set<Value>)
    requires Sorted(Names(files))
    ensures Sorted(Names(Kept(files, discards)))
  {
    if files != [] {
      var n := |files| - 1;
      var init := files[..n];
      assert Sorted(Names(init)) by {
        forall i, j | 0 <= i < j < |init| ensures StrLess(Names(init)[i], Names(init)[j]) {
          assert StrLess(Names(files)[i], Names(files)[j]);
        }
      }
      KeptSorted(init, discards);
      var k := Kept(init, discards);
      if !Discarded(files[n], discards) {
        var r := k + [files[n]];
        forall i, j | 0 <= i < j < |r| ensures StrLess(Names(r)[i], Names(r)[j]) {
          if j < |k| {
            assert Names(r)[i] == Names(k)[i] && Names(r)[j] == Names(k)[j];
          } else {
            KeptMembers(init, discards, k[i]);
            var p :| 0 <= p < |init| && init[p] == k[i];
            assert StrLess(Names(files)[p], Names(files)[n]);
          }
        }
        assert |Names(r)| == |r|;
        assert Kept(files, discards) == r;
      } else {
        assert Kept(files, discards) == k;
      }
    }
  }
}
