/**
 * The PDF sanitizer: it deletes listed keys of the catalogue and of every page, then walks the
 * object graph, which may have cycles, and empties every dangerous action in place.
 */
module PdfSanitizer {
  /** The identity of an object, and what it holds. A leaf is any name, string or number, as text. */
  type Id = nat

  datatype Node = Dict(entries: map<string, Id>) | Array(items: seq<Id>) | Leaf(text: string)

  type Heap = map<Id, Node>

  /** For each object, the objects one step further. */
  type Edges = map<Id, set<Id>>

  const ROOT_KEYS := ["/OpenAction", "/AA", "/JavaScript", "/JS", "/Names"]
  const PAGE_KEY := "/AA"
  const PAGE_LABEL := "Page/AA"
  const DANGEROUS_TYPES := {
    "/Launch", "/JavaScript", "/JS", "/URI", "/SubmitForm", "/ImportData",
    "/GoToR", "/GoToE", "/RichMedia", "/Movie", "/Sound", "/Rendition"
  }
  const EMPTIED := Dict(map[])

  predicate Dangerous(h: Heap, x: Id) {
    && x in h && h[x].Dict? && "/S" in h[x].entries
    && var s := h[x].entries["/S"];
       s in h && h[s].Leaf? && h[s].text in DANGEROUS_TYPES
  }

  function Children(n: Node): set<Id> {
    match n
    case Dict(entries) => entries.Values
    case Array(items) => set y <- items
    case Leaf(_) => {}
  }

  /** Every reference leads to an object. */
  predicate Resolved(h: Heap) {
    forall x <- h :: Children(h[x]) <= h.Keys
  }

  /** All references, and those the walk follows: it never looks inside a dangerous action. */
  function AllEdges(h: Heap): Edges {
    map x <- h :: Children(h[x])
  }

  function WalkEdges(h: Heap): Edges {
    map x <- h :: if Dangerous(h, x) then {} else Children(h[x])
  }

  ghost predicate Path(g: Edges, p: seq<Id>) {
    && p != []
    && forall i :: 0 <= i < |p| - 1 ==> p[i] in g && p[i + 1] in g[p[i]]
  }

  ghost predicate Reaches(g: Edges, from: seq<Id>, x: Id) {
    exists p :: Path(g, p) && p[0] in from && p[|p| - 1] == x
  }

  lemma ReachesItself(g: Edges, from: seq<Id>, x: Id)
    requires x in from
    ensures Reaches(g, from, x)
  {
    assert Path(g, [x]) && [x][0] == x;
  }

  lemma ReachesNext(g: Edges, from: seq<Id>, x: Id, y: Id)
    requires Reaches(g, from, x) && x in g && y in g[x]
    ensures Reaches(g, from, y)
  {
    var p :| Path(g, p) && p[0] in from && p[|p| - 1] == x;
    var q := p + [y];
    forall i | 0 <= i < |q| - 1
      ensures q[i] in g && q[i + 1] in g[q[i]]
    {
      if i < |p| - 1 {
        assert q[i] == p[i] && q[i + 1] == p[i + 1];
      }
    }
    assert Path(g, q) && q[|q| - 1] == y;
  }

  /** A set that holds the starting objects and is closed under the edges holds all that is reached. */
  lemma {:induction false} ClosedHoldsPath(g: Edges, from: seq<Id>, closed: set<Id>, p: seq<Id>)
    requires forall x <- from :: x in closed
    requires forall x <- g | x in closed :: g[x] <= closed
    requires Path(g, p) && p[0] in from
    ensures p[|p| - 1] in closed
    decreases |p|
  {
    if |p| > 1 {
      var q := p[..|p| - 1];
      forall i | 0 <= i < |q| - 1
        ensures q[i] in g && q[i + 1] in g[q[i]]
      {
        assert q[i] == p[i] && q[i + 1] == p[i + 1];
      }
      ClosedHoldsPath(g, from, closed, q);
      assert p[|p| - 2] in g && p[|p| - 1] in g[p[|p| - 2]];
    }
  }

  lemma ClosedHoldsReached(g: Edges, from: seq<Id>, closed: set<Id>, x: Id)
    requires forall y <- from :: y in closed
    requires forall y <- g | y in closed :: g[y] <= closed
    requires Reaches(g, from, x)
    ensures x in closed
  {
    var p :| Path(g, p) && p[0] in from && p[|p| - 1] == x;
    ClosedHoldsPath(g, from, closed, p);
  }

  // ---------------------------------------------------------------- specification

  /** A heap in which the dangerous actions of `where` have been emptied, and nothing else changed. */
  function Emptied(h: Heap, where: set<Id>): Heap {
    map x <- h :: if x in where && Dangerous(h, x) then EMPTIED else h[x]
  }

  ghost function Reached(h: Heap, from: seq<Id>): set<Id> {
    set x <- h | Reaches(WalkEdges(h), from, x)
  }

  function Drop(entries: map<string, Id>, keys: seq<string>): map<string, Id> {
    map k <- entries | k !in keys :: entries[k]
  }

  function Without(h: Heap, x: Id, keys: seq<string>): Heap {
    map y <- h :: if y == x && h[y].Dict? then Dict(Drop(h[y].entries, keys)) else h[y]
  }

  function WithoutPageKey(h: Heap, pages: seq<Id>): Heap {
    map y <- h :: if y in pages && h[y].Dict? then Dict(Drop(h[y].entries, [PAGE_KEY])) else h[y]
  }

  lemma DropsNothing(entries: map<string, Id>, keys: seq<string>)
    requires forall k <- keys :: k !in entries
    ensures Drop(entries, keys) == entries
  {}

  lemma DropsOneMore(entries: map<string, Id>, keys: seq<string>, key: string)
    ensures Drop(entries, keys + [key]) == Drop(entries, keys) - {key}
  {}

  predicate AllDicts(h: Heap, xs: seq<Id>) {
    forall x <- xs :: x in h && h[x].Dict?
  }

  function Stripped(h: Heap, root: Id, pages: seq<Id>): Heap {
    WithoutPageKey(Without(h, root, ROOT_KEYS), pages)
  }

  /** The whole effect on the document. */
  ghost function Sanitized(h: Heap, root: Id, pages: seq<Id>, objects: seq<Id>): Heap {
    var stripped := Stripped(h, root, pages);
    Emptied(stripped, Reached(stripped, objects))
  }

  function Label(h: Heap, x: Id): string {
    if Dangerous(h, x) then "Action" + h[h[x].entries["/S"]].text else ""
  }

  function Labels(h: Heap, xs: seq<Id>): seq<string>
    decreases |xs|
  {
    if xs == [] then [] else Labels(h, xs[..|xs| - 1]) + [Label(h, xs[|xs| - 1])]
  }

  function Held(entries: map<string, Id>, keys: seq<string>): seq<string>
    decreases |keys|
  {
    if keys == [] then []
    else Held(entries, keys[..|keys| - 1]) + (if keys[|keys| - 1] in entries then [keys[|keys| - 1]] else [])
  }

  predicate SomePageHasKey(h: Heap, pages: seq<Id>) {
    exists x <- pages :: HasKey(h, x, PAGE_KEY)
  }

  predicate HasKey(h: Heap, x: Id, key: string) {
    x in h && h[x].Dict? && key in h[x].entries
  }

  /** Nothing for a run to remove. */
  ghost predicate IsClean(h: Heap, root: Id, pages: seq<Id>, objects: seq<Id>) {
    && (forall k <- ROOT_KEYS :: !HasKey(h, root, k))
    && !SomePageHasKey(h, pages)
    && (forall x <- Reached(h, objects) :: !Dangerous(h, x))
  }

  /** `xs` lists exactly the dangerous objects of `where`, each once. */
  ghost predicate Lists(h: Heap, xs: seq<Id>, where: set<Id>) {
    && (forall x :: x in xs <==> x in where && Dangerous(h, x))
    && (forall i, j :: 0 <= i < j < |xs| ==> xs[i] != xs[j])
  }

  /** What holds throughout a walk of `h` that started with `base` in the list of removals. */
  ghost predicate Progress(h: Heap, base: seq<string>, heap: Heap, visited: set<Id>, removed: seq<string>, emptied: seq<Id>) {
    && Resolved(h)
    && visited <= h.Keys
    && heap == Emptied(h, visited)
    && Lists(h, emptied, visited)
    && removed == base + Labels(h, emptied)
  }

  lemma VisitSafe(h: Heap, base: seq<string>, heap: Heap, visited: set<Id>, removed: seq<string>, emptied: seq<Id>, x: Id)
    requires Progress(h, base, heap, visited, removed, emptied) && x in h && !Dangerous(h, x)
    ensures Progress(h, base, heap, visited + {x}, removed, emptied)
  {
    hide Dangerous, Labels, Resolved;
  }

  lemma VisitDangerous(h: Heap, base: seq<string>, heap: Heap, visited: set<Id>, removed: seq<string>, emptied: seq<Id>, x: Id)
    requires Progress(h, base, heap, visited, removed, emptied) && x !in visited && Dangerous(h, x)
    ensures Progress(h, base, heap[x := EMPTIED], visited + {x}, removed + [Label(h, x)], emptied + [x])
  {
    hide Dangerous, Label, Labels, Resolved, Lists, Emptied;
    DangerousIsDict(h, x);
    EmptiedOneMore(h, visited, x);
    ListsOneMore(h, emptied, visited, x);
    LabelsOneMore(h, emptied, x);
    assert base + Labels(h, emptied + [x]) == (base + Labels(h, emptied)) + [Label(h, x)];
  }

  lemma EmptiedOneMore(h: Heap, where: set<Id>, x: Id)
    requires x in h && Dangerous(h, x)
    ensures Emptied(h, where)[x := EMPTIED] == Emptied(h, where + {x})
  {
    hide Dangerous;
  }

  lemma ListsOneMore(h: Heap, xs: seq<Id>, where: set<Id>, x: Id)
    requires Lists(h, xs, where) && x !in where && Dangerous(h, x)
    ensures Lists(h, xs + [x], where + {x})
  {
    hide Dangerous;
  }

  lemma LabelsOneMore(h: Heap, xs: seq<Id>, x: Id)
    ensures Labels(h, xs + [x]) == Labels(h, xs) + [Label(h, x)]
  {
    hide Label;
    assert (xs + [x])[..|xs|] == xs;
  }

  lemma DangerousIsDict(h: Heap, x: Id)
    ensures Dangerous(h, x) ==> x in h && h[x].Dict?
  {}

  /** An object that is not yet visited, or is safe, is as it was, and so is its being dangerous. */
  lemma Untouched(h: Heap, base: seq<string>, heap: Heap, visited: set<Id>, removed: seq<string>, emptied: seq<Id>, x: Id)
    requires Progress(h, base, heap, visited, removed, emptied) && x in h && (x !in visited || !Dangerous(h, x))
    ensures Resolved(h) && x in heap && heap[x] == h[x] && Children(h[x]) <= h.Keys
    ensures Dangerous(heap, x) <==> Dangerous(h, x)
    ensures Dangerous(h, x) ==> h[x].Dict? && Label(heap, x) == Label(h, x)
  {
    hide Lists, Labels, Children;
  }

  ghost predicate AllReached(h: Heap, from: seq<Id>, visited: set<Id>) {
    forall x <- visited :: Reaches(WalkEdges(h), from, x)
  }

  /** The objects of `done` have all their followed references in `visited`. */
  ghost predicate Finished(h: Heap, done: set<Id>, visited: set<Id>) {
    forall x <- done :: x in h ==> WalkEdges(h)[x] <= visited
  }

  lemma FinishedMore(h: Heap, a: set<Id>, va: set<Id>, b: set<Id>, vb: set<Id>, c: set<Id>)
    requires Finished(h, a, va) && va <= vb && Finished(h, b, vb) && c <= a + b
    ensures Finished(h, c, vb)
  {
    hide Dangerous, Children;
  }

  lemma FinishedNone(h: Heap, visited: set<Id>)
    ensures Finished(h, {}, visited)
  {}

  lemma FinishedDangerous(h: Heap, x: Id, visited: set<Id>)
    requires Dangerous(h, x)
    ensures Finished(h, {x}, visited)
  {
    hide Dangerous, Children;
  }

  lemma FinishedSafe(h: Heap, x: Id, visited: set<Id>)
    requires x in h && (h[x].Dict? ==> forall k <- h[x].entries :: h[x].entries[k] in visited)
    requires h[x].Array? ==> forall i :: 0 <= i < |h[x].items| ==> h[x].items[i] in visited
    ensures Finished(h, {x}, visited)
  {
    hide Dangerous;
  }

  lemma ChildReached(h: Heap, from: seq<Id>, visited: set<Id>, x: Id, y: Id)
    requires Resolved(h) && AllReached(h, from, visited) && x in visited && x in h && !Dangerous(h, x)
    requires (h[x].Dict? && y in h[x].entries.Values) || (h[x].Array? && y in h[x].items)
    ensures y in h && AllReached(h, from, visited + {y})
  {
    hide Dangerous, Reaches;
    assert y in Children(h[x]);
    assert y in WalkEdges(h)[x];
    ReachesNext(WalkEdges(h), from, x, y);
  }

  // ---------------------------------------------------------------- the walk

  class Sanitizer {
    var heap: Heap
    var visited: set<Id>
    var removed: seq<string>
    /** The emptied objects, in order. */
    ghost var emptied: seq<Id>

    constructor (heap: Heap)
      ensures this.heap == heap && visited == {} && removed == [] && emptied == []
    {
      this.heap := heap;
      visited := {};
      removed, emptied := [], [];
    }

    /** Deletes every key of the dictionary. */
    method NeutralizeAction(obj: Id)
      requires Dangerous(heap, obj)
      modifies this
      ensures heap == old(heap)[obj := EMPTIED] && visited == old(visited)
      ensures removed == old(removed) + [Label(old(heap), obj)] && emptied == old(emptied) + [obj]
    {
      hide Dangerous;
      DangerousIsDict(heap, obj);
      var action := Label(heap, obj);
      var keys := heap[obj].entries.Keys;
      while keys != {}
        invariant heap.Keys == old(heap.Keys) && heap[obj].Dict? && heap[obj].entries.Keys == keys
        invariant forall x <- heap | x != obj :: heap[x] == old(heap)[x]
        invariant visited == old(visited) && removed == old(removed) && emptied == old(emptied)
        decreases |keys|
      {
        var key :| key in keys;
        heap := heap[obj := Dict(heap[obj].entries - {key})];
        keys := keys - {key};
      }
      assert heap[obj].entries == map[];
      assert heap == old(heap)[obj := EMPTIED];
      removed := removed + [action];
      emptied := emptied + [obj];
    }

    ghost predicate Walking(h: Heap, base: seq<string>)
      reads this
    {
      Progress(h, base, heap, visited, removed, emptied)
    }

    method WalkAndClean(obj: Id, ghost h: Heap, ghost base: seq<string>, ghost from: seq<Id>)
      requires obj in h && Walking(h, base) && AllReached(h, from, visited + {obj})
      modifies this
      ensures Walking(h, base) && AllReached(h, from, visited)
      ensures old(visited) + {obj} <= visited
      ensures Finished(h, visited - old(visited), visited)
      decreases h.Keys - visited
    {
      hide Progress, Dangerous, Children, AllReached, Finished;
      if obj in visited {
        FinishedNone(h, visited);
        assert visited - old(visited) == {} && visited + {obj} == visited;
        return;
      }
      Untouched(h, base, heap, visited, removed, emptied, obj);
      if Dangerous(heap, obj) {
        VisitDangerous(h, base, heap, visited, removed, emptied, obj);
        visited := visited + {obj};
        NeutralizeAction(obj);
        FinishedDangerous(h, obj, visited);
        assert visited - old(visited) == {obj};
        return;
      }
      VisitSafe(h, base, heap, visited, removed, emptied, obj);
      visited := visited + {obj};
      ghost var here := visited;
      assert visited - here == {};
      FinishedNone(h, visited);
      if heap[obj].Dict? {
        var keys := heap[obj].entries.Keys;
        while keys != {}
          invariant keys <= h[obj].entries.Keys && here <= visited
          invariant Walking(h, base) && AllReached(h, from, visited)
          invariant Finished(h, visited - here, visited)
          invariant forall k <- h[obj].entries.Keys - keys :: h[obj].entries[k] in visited
          decreases |keys|
        {
          var key :| key in keys;
          // the entry is still there: only dangerous dictionaries lose theirs
          Untouched(h, base, heap, visited, removed, emptied, obj);
          ghost var before := visited;
          ChildReached(h, from, visited, obj, heap[obj].entries[key]);
          WalkAndClean(heap[obj].entries[key], h, base, from);
          FinishedMore(h, before - here, before, visited - before, visited, visited - here);
          keys := keys - {key};
        }
      } else if heap[obj].Array? {
        var items := heap[obj].items;
        for i := 0 to |items|
          invariant here <= visited && Walking(h, base) && AllReached(h, from, visited)
          invariant Finished(h, visited - here, visited)
          invariant forall j :: 0 <= j < i ==> items[j] in visited
        {
          ghost var before := visited;
          ChildReached(h, from, visited, obj, items[i]);
          WalkAndClean(items[i], h, base, from);
          FinishedMore(h, before - here, before, visited - before, visited, visited - here);
        }
      }
      FinishedSafe(h, obj, visited);
      FinishedMore(h, visited - here, visited, {obj}, visited, visited - old(visited));
    }

    method StripRoot(root: Id)
      requires AllDicts(heap, [root]) && removed == []
      modifies this`heap, this`removed
      ensures heap == Without(old(heap), root, ROOT_KEYS)
      ensures removed == Held(old(heap[root].entries), ROOT_KEYS)
    {
      RootKeysDistinct();
      assert root in [root];
      ghost var entries := heap[root].entries;
      DropsNothing(entries, ROOT_KEYS[..0]);
      for i := 0 to |ROOT_KEYS|
        invariant heap == Without(old(heap), root, ROOT_KEYS[..i]) && heap[root].Dict?
        invariant removed == Held(entries, ROOT_KEYS[..i])
      {
        var key := ROOT_KEYS[i];
        var some := ROOT_KEYS[..i + 1];
        assert some[..i] == ROOT_KEYS[..i] && key !in ROOT_KEYS[..i] && some == ROOT_KEYS[..i] + [key];
        DropsOneMore(entries, ROOT_KEYS[..i], key);
        if key in heap[root].entries {
          heap := heap[root := Dict(heap[root].entries - {key})];
          removed := removed + [key];
        } else {
          assert heap[root].entries - {key} == heap[root].entries;
        }
        assert heap == Without(old(heap), root, some);
      }
      assert ROOT_KEYS[..|ROOT_KEYS|] == ROOT_KEYS;
    }

    method StripPages(pages: seq<Id>)
      requires AllDicts(heap, pages) && PAGE_LABEL !in removed
      modifies this`heap, this`removed
      ensures heap == WithoutPageKey(old(heap), pages)
      ensures removed == old(removed) + if SomePageHasKey(old(heap), pages) then [PAGE_LABEL] else []
    {
      for i := 0 to |pages|
        invariant heap == WithoutPageKey(old(heap), pages[..i])
        invariant removed == old(removed) + if SomePageHasKey(old(heap), pages[..i]) then [PAGE_LABEL] else []
      {
        var page := pages[i];
        assert page in pages && pages[..i + 1] == pages[..i] + [page];
        ghost var entries := old(heap)[page].entries;
        DropsOneMore(entries, [], PAGE_KEY);
        DropsNothing(entries, []);
        assert [] + [PAGE_KEY] == [PAGE_KEY];
        if PAGE_KEY in heap[page].entries {
          assert HasKey(old(heap), page, PAGE_KEY);
          heap := heap[page := Dict(heap[page].entries - {PAGE_KEY})];
          if PAGE_LABEL !in removed {
            removed := removed + [PAGE_LABEL];
          }
        } else {
          assert heap[page].entries - {PAGE_KEY} == heap[page].entries;
        }
        assert heap == WithoutPageKey(old(heap), pages[..i + 1]);
      }
      assert pages[..|pages|] == pages;
    }

    /** The whole run: exit status 0 when something was removed and the document saved, 1 when it was clean. */
    method Sanitize(root: Id, pages: seq<Id>, objects: seq<Id>) returns (status: int)
      requires visited == {} && removed == [] && emptied == []
      requires Resolved(heap) && AllDicts(heap, [root] + pages) && forall x <- objects :: x in heap
      modifies this
      ensures heap == Sanitized(old(heap), root, pages, objects)
      ensures var stripped := Stripped(old(heap), root, pages);
              && Lists(stripped, emptied, Reached(stripped, objects))
              && removed == Held(old(heap[root].entries), ROOT_KEYS)
                 + (if SomePageHasKey(Without(old(heap), root, ROOT_KEYS), pages) then [PAGE_LABEL] else [])
                 + Labels(stripped, emptied)
      ensures status == if IsClean(old(heap), root, pages, objects) then 1 else 0
    {
      hide Reaches, Dangerous, Finished, AllReached, Progress;
      assert root in [root] + pages && forall x <- pages :: x in [root] + pages;
      StripRoot(root);
      HeldIsListed(old(heap[root].entries), ROOT_KEYS);
      StripPages(pages);
      ghost var h, base := heap, removed;
      ghost var from := objects;
      StrippedResolved(old(heap), root, pages);
      StartOfWalk(h, base);
      for i := 0 to |objects|
        invariant Walking(h, base) && AllReached(h, from, visited) && Finished(h, visited, visited)
        invariant forall j :: 0 <= j < i ==> objects[j] in visited
      {
        assert objects[i] in objects;
        StartReached(h, from, visited, objects[i]);
        ghost var before := visited;
        WalkAndClean(objects[i], h, base, from);
        FinishedMore(h, before, before, visited - before, visited, visited);
      }
      EndOfWalk(h, base, heap, visited, removed, emptied, objects);
      CleanExactly(old(heap), root, pages, objects, emptied);
      status := if removed != [] then 0 else 1;
    }
  }

  // ---------------------------------------------------------------- what a run means

  lemma StartOfWalk(h: Heap, base: seq<string>)
    requires Resolved(h)
    ensures Progress(h, base, h, {}, base, []) && AllReached(h, [], {}) && Finished(h, {}, {})
    ensures forall from :: AllReached(h, from, {})
  {}

  lemma StartReached(h: Heap, from: seq<Id>, visited: set<Id>, x: Id)
    requires AllReached(h, from, visited) && x in from
    ensures AllReached(h, from, visited + {x})
  {
    hide Reaches, Dangerous;
    ReachesItself(WalkEdges(h), from, x);
  }

  lemma EndOfWalk(h: Heap, base: seq<string>, heap: Heap, visited: set<Id>, removed: seq<string>, emptied: seq<Id>, from: seq<Id>)
    requires Progress(h, base, heap, visited, removed, emptied)
    requires AllReached(h, from, visited) && Finished(h, visited, visited)
    requires forall x <- from :: x in visited
    ensures visited == Reached(h, from) && heap == Emptied(h, visited)
    ensures Lists(h, emptied, visited) && removed == base + Labels(h, emptied)
  {
    hide Reaches, Dangerous, Children, Lists, Labels;
    forall x <- h | Reaches(WalkEdges(h), from, x)
      ensures x in visited
    {
      ClosedHoldsReached(WalkEdges(h), from, visited, x);
    }
  }

  lemma RootKeysDistinct()
    ensures forall i, j :: 0 <= i < j < |ROOT_KEYS| ==> ROOT_KEYS[i] != ROOT_KEYS[j]
    ensures PAGE_LABEL !in ROOT_KEYS
  {
    var k := ROOT_KEYS;
    assert k[1][1] == 'A' && k[3][1] == 'J' && PAGE_LABEL[0] == 'P';
    assert |k[0]| == 11 && |k[1]| == 3 && |k[2]| == 11 && |k[3]| == 3 && |k[4]| == 6;
    assert k[0][1] == 'O' && k[2][1] == 'J';
  }

  lemma {:induction false} HeldIsListed(entries: map<string, Id>, keys: seq<string>)
    ensures forall k :: k in Held(entries, keys) <==> k in keys && k in entries
    decreases |keys|
  {
    if keys != [] {
      HeldIsListed(entries, keys[..|keys| - 1]);
      assert keys == keys[..|keys| - 1] + [keys[|keys| - 1]];
    }
  }

  lemma StrippedResolved(h: Heap, root: Id, pages: seq<Id>)
    requires Resolved(h)
    ensures Resolved(Stripped(h, root, pages)) && Stripped(h, root, pages).Keys == h.Keys
  {
    var s := Stripped(h, root, pages);
    forall x <- s
      ensures Children(s[x]) <= s.Keys
    {
      assert Children(s[x]) <= Children(h[x]);
    }
  }

  lemma {:induction false} LabelsLength(h: Heap, xs: seq<Id>)
    ensures |Labels(h, xs)| == |xs|
    decreases |xs|
  {
    if xs != [] {
      LabelsLength(h, xs[..|xs| - 1]);
    }
  }

  /** The list of removals is empty exactly when the document was clean. */
  lemma CleanExactly(h: Heap, root: Id, pages: seq<Id>, objects: seq<Id>, emptied: seq<Id>)
    requires root in h && h[root].Dict?
    requires Lists(Stripped(h, root, pages), emptied, Reached(Stripped(h, root, pages), objects))
    ensures IsClean(h, root, pages, objects) <==>
            && Held(h[root].entries, ROOT_KEYS) == []
            && !SomePageHasKey(Without(h, root, ROOT_KEYS), pages)
            && Labels(Stripped(h, root, pages), emptied) == []
  {
    hide Reached, Dangerous, Labels, Held, Lists;
    HeldIsListed(h[root].entries, ROOT_KEYS);
    LabelsLength(Stripped(h, root, pages), emptied);
    var held := Held(h[root].entries, ROOT_KEYS);
    assert held == [] <==> forall k <- ROOT_KEYS :: !HasKey(h, root, k) by {
      if held != [] {
        assert held[0] in held;
      }
    }
    if held == [] {
      forall k <- ROOT_KEYS
        ensures k !in h[root].entries
      {
        assert !HasKey(h, root, k);
      }
      DropsNothing(h[root].entries, ROOT_KEYS);
      assert Without(h, root, ROOT_KEYS) == h;
      if !SomePageHasKey(h, pages) {
        StrippedNothing(h, pages);
        NothingListed(h, emptied, Reached(h, objects));
      }
    }
  }

  lemma StrippedNothing(h: Heap, pages: seq<Id>)
    requires !SomePageHasKey(h, pages)
    ensures WithoutPageKey(h, pages) == h
  {
    forall y <- h | y in pages && h[y].Dict?
      ensures Drop(h[y].entries, [PAGE_KEY]) == h[y].entries
    {
      assert !HasKey(h, y, PAGE_KEY);
      DropsNothing(h[y].entries, [PAGE_KEY]);
    }
  }

  lemma NothingListed(h: Heap, xs: seq<Id>, where: set<Id>)
    requires Lists(h, xs, where)
    ensures xs == [] <==> forall x <- where :: !Dangerous(h, x)
  {
    hide Dangerous;
    if xs != [] {
      assert xs[0] in xs;
    }
  }

  lemma EmptiedDangerous(h: Heap, where: set<Id>, x: Id)
    ensures Dangerous(Emptied(h, where), x) <==> Dangerous(h, x) && x !in where
  {}

  lemma StrippedDangerous(h: Heap, root: Id, pages: seq<Id>, x: Id)
    ensures Dangerous(Stripped(h, root, pages), x) <==> Dangerous(h, x)
  {
    var s := Stripped(h, root, pages);
    assert "/S" !in ROOT_KEYS by {
      var k := ROOT_KEYS;
      assert |k[0]| == 11 && |k[1]| == 3 && |k[2]| == 11 && |k[3]| == 3 && |k[4]| == 6;
    }
    assert PAGE_KEY != "/S" by {
      assert |PAGE_KEY| == 3;
    }
    if x in h && h[x].Dict? {
      assert "/S" in s[x].entries <==> "/S" in h[x].entries;
    }
  }

  /** No dangerous action can be reached from the listed objects through any dictionary or array. */
  lemma NothingDangerousRemains(h: Heap, root: Id, pages: seq<Id>, objects: seq<Id>, x: Id)
    requires Resolved(h) && forall y <- objects :: y in h
    requires Reaches(AllEdges(Sanitized(h, root, pages, objects)), objects, x)
    ensures !Dangerous(Sanitized(h, root, pages, objects), x)
    ensures x in Reached(Stripped(h, root, pages), objects)
  {
    hide Reaches, Dangerous, Children;
    var s, r := Stripped(h, root, pages), Sanitized(h, root, pages, objects);
    var closed := Reached(s, objects);
    StrippedResolved(h, root, pages);
    forall y <- objects
      ensures y in closed
    {
      ReachesItself(WalkEdges(s), objects, y);
    }
    forall y <- AllEdges(r) | y in closed
      ensures AllEdges(r)[y] <= closed
    {
      StaysReached(s, objects, y);
    }
    ClosedHoldsReached(AllEdges(r), objects, closed, x);
    EmptiedDangerous(s, closed, x);
  }

  lemma StaysReached(s: Heap, from: seq<Id>, x: Id)
    requires Resolved(s) && x in Reached(s, from)
    ensures Children(Emptied(s, Reached(s, from))[x]) <= Reached(s, from)
  {
    hide Reaches, Dangerous;
    if !Dangerous(s, x) {
      forall y <- Children(s[x])
        ensures y in Reached(s, from)
      {
        ReachesNext(WalkEdges(s), from, x, y);
      }
    }
  }

  /** Exactly the listed keys of catalogue and pages, and the contents of reached dangerous actions, go. */
  lemma OnlyListedEntriesGo(h: Heap, root: Id, pages: seq<Id>, objects: seq<Id>, x: Id)
    requires x in h
    ensures var r := Sanitized(h, root, pages, objects);
            && r.Keys == h.Keys
            && (!h[x].Dict? ==> r[x] == h[x])
            && (h[x].Dict? ==>
                  && r[x].Dict?
                  && r[x].entries.Keys <= h[x].entries.Keys
                  && forall k <- h[x].entries ::
                       if (x == root && k in ROOT_KEYS) || (x in pages && k == PAGE_KEY)
                          || (Dangerous(h, x) && x in Reached(Stripped(h, root, pages), objects))
                       then k !in r[x].entries
                       else k in r[x].entries && r[x].entries[k] == h[x].entries[k])
  {
    hide Reached, Dangerous;
    StrippedDangerous(h, root, pages, x);
    DangerousIsDict(h, x);
  }

  lemma StrippedTwice(h: Heap, root: Id, pages: seq<Id>, objects: seq<Id>)
    ensures var r := Sanitized(h, root, pages, objects);
            && Stripped(r, root, pages) == r
            && (forall k <- ROOT_KEYS :: !HasKey(r, root, k))
            && !SomePageHasKey(r, pages)
  {
    hide Reached, Dangerous;
    var r := Sanitized(h, root, pages, objects);
    if root in r && r[root].Dict? {
      DropsNothing(r[root].entries, ROOT_KEYS);
    }
    assert Without(r, root, ROOT_KEYS) == r;
    assert !SomePageHasKey(r, pages);
    StrippedNothing(r, pages);
  }

  /** A second run on the result, over any of the objects still reachable, finds nothing and changes nothing. */
  lemma SecondRunRemovesNothing(h: Heap, root: Id, pages: seq<Id>, objects: seq<Id>, again: seq<Id>)
    requires Resolved(h) && forall y <- objects :: y in h
    requires forall y <- again :: Reaches(AllEdges(Sanitized(h, root, pages, objects)), objects, y)
    ensures var r := Sanitized(h, root, pages, objects);
            IsClean(r, root, pages, again) && Sanitized(r, root, pages, again) == r
  {
    hide Reaches, Dangerous, Children, Stripped, HasKey, SomePageHasKey;
    var s, r := Stripped(h, root, pages), Sanitized(h, root, pages, objects);
    var closed := Reached(s, objects);
    StrippedResolved(h, root, pages);
    forall y <- again
      ensures y in closed
    {
      NothingDangerousRemains(h, root, pages, objects, y);
    }
    StrippedTwice(h, root, pages, objects);
    forall y <- WalkEdges(r) | y in closed
      ensures WalkEdges(r)[y] <= closed
    {
      StaysReached(s, objects, y);
    }
    forall x <- Reached(r, again)
      ensures !Dangerous(r, x)
    {
      ClosedHoldsReached(WalkEdges(r), again, closed, x);
      EmptiedDangerous(s, closed, x);
    }
  }
}
