/**
 * What a run of the PDF sanitizer leaves, told by the entries and texts of the document alone:
 * the action types, the keys and the references between objects are written out here.
 */
module PdfActions {
  import opened PdfSanitizer

  /** The dictionary has one of the twelve types under its type key. */
  predicate Acts(h: Heap, x: Id) {
    && x in h && h[x].Dict? && "/S" in h[x].entries
    && h[x].entries["/S"] in h && h[h[x].entries["/S"]].Leaf?
    && h[h[x].entries["/S"]].text in [
         "/Launch", "/JavaScript", "/JS", "/URI", "/SubmitForm", "/ImportData",
         "/GoToR", "/GoToE", "/RichMedia", "/Movie", "/Sound", "/Rendition"]
  }

  lemma DangerousExactly(h: Heap, x: Id)
    ensures Dangerous(h, x) <==> Acts(h, x)
  {}

  /** A value of the dictionary, or an item of the array. */
  predicate Refers(h: Heap, x: Id, y: Id) {
    && x in h
    && (|| (h[x].Dict? && exists k <- h[x].entries :: h[x].entries[k] == y)
        || (h[x].Array? && exists i :: 0 <= i < |h[x].items| && h[x].items[i] == y))
  }

  ghost predicate Trail(h: Heap, p: seq<Id>) {
    p != [] && forall i :: 0 <= i < |p| - 1 ==> Refers(h, p[i], p[i + 1])
  }

  lemma RefersIsEdge(h: Heap, x: Id, y: Id)
    ensures Refers(h, x, y) <==> x in AllEdges(h) && y in AllEdges(h)[x]
  {}

  lemma TrailReaches(h: Heap, from: seq<Id>, p: seq<Id>)
    requires Trail(h, p) && p[0] in from
    ensures Reaches(AllEdges(h), from, p[|p| - 1])
  {
    hide Refers, AllEdges;
    forall i | 0 <= i < |p| - 1
      ensures p[i] in AllEdges(h) && p[i + 1] in AllEdges(h)[p[i]]
    {
      RefersIsEdge(h, p[i], p[i + 1]);
    }
    assert Path(AllEdges(h), p);
  }

  /** No dictionary with one of the twelve types is left at the end of any trail of references from the listed objects. */
  lemma NoActionIsLeft(h: Heap, root: Id, pages: seq<Id>, objects: seq<Id>, p: seq<Id>)
    requires Resolved(h) && forall y <- objects :: y in h
    requires Trail(Sanitized(h, root, pages, objects), p) && p[0] in objects
    ensures !Acts(Sanitized(h, root, pages, objects), p[|p| - 1])
  {
    hide Reached, Dangerous, Acts, Reaches, Trail, Stripped, Sanitized;
    assert p != [] by { TrailIsNotEmpty(Sanitized(h, root, pages, objects), p); }
    var r, x := Sanitized(h, root, pages, objects), p[|p| - 1];
    TrailReaches(r, objects, p);
    NothingDangerousRemains(h, root, pages, objects, x);
    DangerousExactly(r, x);
  }

  lemma TrailIsNotEmpty(h: Heap, p: seq<Id>)
    requires Trail(h, p)
    ensures p != []
  {}

  /** The keys removed from an object whatever it holds: five from the catalogue, one from every page. */
  predicate KeyGoes(root: Id, pages: seq<Id>, x: Id, k: string) {
    || (x == root && k in ["/OpenAction", "/AA", "/JavaScript", "/JS", "/Names"])
    || (x in pages && k == "/AA")
  }

  /**
   * A listed object with one of the twelve types is emptied; any other dictionary keeps each
   * entry with its value but the keys of catalogue and pages, which it loses; anything else stays.
   */
  lemma EntriesAfterRun(h: Heap, root: Id, pages: seq<Id>, objects: seq<Id>, x: Id)
    requires x in h
    ensures var r := Sanitized(h, root, pages, objects);
            && x in r
            && (!h[x].Dict? ==> r[x] == h[x])
            && (x in objects && Acts(h, x) ==> r[x] == Dict(map[]))
            && (h[x].Dict? && !Acts(h, x) ==>
                  r[x].Dict?
                  && (forall k <- r[x].entries :: k in h[x].entries)
                  && forall k <- h[x].entries ::
                       if KeyGoes(root, pages, x, k) then k !in r[x].entries
                       else k in r[x].entries && r[x].entries[k] == h[x].entries[k])
  {
    hide Reached, Dangerous, Acts, Stripped, Sanitized;
    DangerousExactly(h, x);
    OnlyListedEntriesGo(h, root, pages, objects, x);
    if x in objects && Acts(h, x) {
      ListedIsEmptied(h, root, pages, objects, x);
    }
  }

  lemma ListedIsEmptied(h: Heap, root: Id, pages: seq<Id>, objects: seq<Id>, x: Id)
    requires x in h && x in objects && Dangerous(h, x)
    ensures Sanitized(h, root, pages, objects)[x] == Dict(map[])
  {
    var s := Stripped(h, root, pages);
    StrippedDangerous(h, root, pages, x);
    assert x in s;
    hide Dangerous, Reaches, Stripped;
    ReachesItself(WalkEdges(s), objects, x);
    assert x in Reached(s, objects);
  }

  /** The names under which the report lists removed keys: those of the catalogue as they are, that of pages once. */
  lemma ReportNamesKeys(entries: map<string, Id>, k: string)
    ensures k in Held(entries, ROOT_KEYS) <==> k in entries && k in ["/OpenAction", "/AA", "/JavaScript", "/JS", "/Names"]
    ensures PAGE_LABEL == "Page/AA"
  {
    HeldIsListed(entries, ROOT_KEYS);
  }

  /** The report names each emptied action by its type. */
  lemma ReportNamesType(h: Heap, xs: seq<Id>, i: nat)
    requires i < |xs| && Acts(h, xs[i])
    ensures |Labels(h, xs)| == |xs| && Labels(h, xs)[i] == "Action" + h[h[xs[i]].entries["/S"]].text
    decreases |xs|
  {
    hide Acts, Dangerous;
    DangerousExactly(h, xs[i]);
    LabelsLength(h, xs);
    var n := |xs| - 1;
    if i < n {
      ReportNamesType(h, xs[..n], i);
      LabelsLength(h, xs[..n]);
    } else {
      LabelsLength(h, xs[..n]);
      TypeIsThere(h, xs[i]);
    }
  }

  lemma TypeIsThere(h: Heap, x: Id)
    requires Acts(h, x)
    ensures x in h && h[x].Dict? && "/S" in h[x].entries && h[x].entries["/S"] in h && h[h[x].entries["/S"]].Leaf?
    ensures Label(h, x) == "Action" + h[h[x].entries["/S"]].text
  {
    DangerousExactly(h, x);
  }
}
