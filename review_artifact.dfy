/** The review file of create_pdfs.py, normalised into a rotation map, a set of
    section-break names and a set of discarded names. */
module ReviewArtifact {
  import opened Optional
  import opened PyJson

  /** The three values the review loading block leaves behind. `corrections`
      is kept as the value it was read as: the script only looks names up in
      it later, and that lookup is where a non-object fails. */
  datatype Review = Review(corrections: Value, breaks: set<Value>, discards: set<Value>)

  /** With no review file nothing is rotated, broken or discarded. */
  const NoReview := Review(Obj(map[]), {}, {})

  /** The current shape: an object with a "corrections" key. */
  predicate IsCurrentShape(root: Value) {
    root.Obj? && "corrections" in root.fields
  }

  /** `set(data.get(key, []))`: a missing key gives the empty set. */
  function NameSet(m: map<string, Value>, key: string): Result<set<Value>> {
    if key in m then ToSet(m[key]) else Ok({})
  }

  /** Load the review file (None when it does not exist). */
  function Load(file: Option<Value>): (r: Result<Review>)
    ensures file.None? ==> r == Ok(NoReview)
    // Legacy shape: the whole root is the rotation map; len() fails on a scalar root.
    ensures file.Some? && !IsCurrentShape(file.value) ==>
      (r.Ok? <==> Sized(file.value)) &&
      (r.Ok? ==> r.value.corrections == file.value && r.value.breaks == {} && r.value.discards == {})
    // Current shape: it loads exactly when both name lists convert to sets
    // and the corrections accept len(); each part comes from its own key.
    ensures file.Some? && IsCurrentShape(file.value) ==>
      var m := file.value.fields;
      (r.Ok? <==> NameSet(m, "sectionBreaks").Ok? && NameSet(m, "discards").Ok? && Sized(m["corrections"]))
    ensures file.Some? && IsCurrentShape(file.value) && r.Ok? ==>
      var m := file.value.fields;
      r.value.corrections == m["corrections"] &&
      NameSet(m, "sectionBreaks") == Ok(r.value.breaks) &&
      NameSet(m, "discards") == Ok(r.value.discards)
  {
    match file
    case None => Ok(NoReview)
    case Some(root) =>
      if IsCurrentShape(root) then
        var corrections := root.fields["corrections"];
        var breaks :- NameSet(root.fields, "sectionBreaks");
        var discards :- NameSet(root.fields, "discards");
        if Sized(corrections) then Ok(Review(corrections, breaks, discards)) else Err(NotSized)
      else if Sized(root) then Ok(Review(root, {}, {}))
      else Err(NotSized)
  }

  /** Every element of `v` is a file name. */
  predicate IsNameList(v: Value) {
    v.Arr? && forall i :: 0 <= i < |v.items| ==> v.items[i].Str?
  }

  /** A well-formed current-shape file: the corrections are an object, the two
      lists are absent or lists of names. It always loads, and a name is a break
      (a discard) exactly when the list of breaks (of discards) holds it. */
  lemma LoadWellFormed(root: Value, name: string)
    requires IsCurrentShape(root) && root.fields["corrections"].Obj?
    requires "sectionBreaks" in root.fields ==> IsNameList(root.fields["sectionBreaks"])
    requires "discards" in root.fields ==> IsNameList(root.fields["discards"])
    ensures Load(Some(root)).Ok?
    ensures var review := Load(Some(root)).value;
      review.corrections == root.fields["corrections"] &&
      (Str(name) in review.breaks <==>
        "sectionBreaks" in root.fields && Str(name) in root.fields["sectionBreaks"].items) &&
      (Str(name) in review.discards <==>
        "discards" in root.fields && Str(name) in root.fields["discards"].items)
  {
  }

  /** A file whose root is not an object, a list or a string never loads. */
  lemma LoadRejectsScalarRoot(root: Value)
    requires !Sized(root)
    ensures Load(Some(root)) == Err(NotSized)
  {
  }
}
