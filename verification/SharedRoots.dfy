/**
 Collapsing the listed shared directories of a stock profile into a few recursive roots.
 A path is its volume followed by its components; folding a component gives the part of a comparison key.
 */
module SharedRoots {
  import opened Outcomes

  type Path = seq<string>

  /** A directory as a scan sees it: its subdirectories by name, or a scan error when it cannot be read. */
  datatype Dir = Dir(readable: bool, children: seq<Child>)
  datatype Child = Child(name: string, dir: Dir)

  // ---------------------------------------------------------------- paths and keys

  function Key(fold: string -> string, path: Path): Path {
    seq(|path|, i requires 0 <= i < |path| => fold(path[i]))
  }

  /** `candidate` is `root` or lies below it. */
  predicate IsUnder(candidate: Path, root: Path) {
    root <= candidate
  }

  function CountSeparators(s: string): nat {
    if s == "" then 0 else CountSeparators(s[1..]) + if s[0] == '\\' then 1 else 0
  }

  /** The number of separators in a displayed path that has at least one component below its volume. */
  function Separators(path: Path): nat {
    if path == [] then 0 else CountSeparators(path[0]) + |path| - 1
  }

  /** The parent and the path itself: the roots a listed directory may end up under. */
  function CandidatePaths(path: Path): seq<Path> {
    if |path| <= 1 then [path] else [path[..|path| - 1], path]
  }

  // ---------------------------------------------------------------- the directory tree

  /** The directory that a path names, comparing names as keys; None where the scan fails. */
  function Find(fold: string -> string, dir: Dir, key: Path): Option<Dir>
    decreases |key|
  {
    if key == [] then Some(dir)
    else
      match FindChild(fold, dir.children, key[0])
      case None => None
      case Some(child) => Find(fold, child, key[1..])
  }

  function FindChild(fold: string -> string, children: seq<Child>, name: string): Option<Dir> {
    if children == [] then None
    else if fold(children[0].name) == name then Some(children[0].dir)
    else FindChild(fold, children[1..], name)
  }

  /** The first child whose name folds to the one looked for, and None only when no name does. */
  lemma {:induction false} FindChildMeans(fold: string -> string, children: seq<Child>, name: string)
    returns (k: nat)
    ensures FindChild(fold, children, name).None? <==>
            forall i :: 0 <= i < |children| ==> fold(children[i].name) != name
    ensures FindChild(fold, children, name).Some? ==>
              && k < |children| && fold(children[k].name) == name
              && FindChild(fold, children, name) == Some(children[k].dir)
              && forall i :: 0 <= i < k ==> fold(children[i].name) != name
  {
    k := 0;
    if children != [] && fold(children[0].name) != name {
      var rest := FindChildMeans(fold, children[1..], name);
      assert forall i :: 0 < i < |children| ==> children[i] == children[1..][i - 1];
      k := rest + 1;
    }
  }

  /** Every directory strictly below `dir`, whose key is `key`, is readable and listed. */
  ghost predicate AllBelowListed(fold: string -> string, dir: Dir, key: Path, listed: set<Path>) {
    forall i :: 0 <= i < |dir.children| ==>
      FullyListed(fold, dir.children[i].dir, key + [fold(dir.children[i].name)], listed)
  }

  ghost predicate FullyListed(fold: string -> string, dir: Dir, key: Path, listed: set<Path>) {
    && key in listed && dir.readable
    && forall i :: 0 <= i < |dir.children| ==>
         FullyListed(fold, dir.children[i].dir, key + [fold(dir.children[i].name)], listed)
  }

  /** The keys of all directories strictly below `dir`. */
  function Descendants(fold: string -> string, dir: Dir, key: Path): set<Path> {
    set i, k | 0 <= i < |dir.children|
               && k in {key + [fold(dir.children[i].name)]}
                       + Descendants(fold, dir.children[i].dir, key + [fold(dir.children[i].name)]) :: k
  }

  lemma KeySnoc(fold: string -> string, path: Path, name: string)
    ensures Key(fold, path + [name]) == Key(fold, path) + [fold(name)]
  {
  }

  /** The number of directories in a tree. */
  function Size(dir: Dir): nat {
    1 + SizeAll(dir.children)
  }

  function SizeAll(children: seq<Child>): nat {
    if children == [] then 0 else Size(children[0].dir) + SizeAll(children[1..])
  }

  datatype Pending = Pending(path: Path, dir: Dir)

  function PendingSize(stack: seq<Pending>): nat {
    if stack == [] then 0 else PendingSize(stack[..|stack| - 1]) + Size(stack[|stack| - 1].dir)
  }

  function Pend(path: Path, children: seq<Child>): seq<Pending> {
    if children == [] then [] else [Pending(path + [children[0].name], children[0].dir)] + Pend(path, children[1..])
  }

  lemma {:induction false} PendingSizeConcat(a: seq<Pending>, b: seq<Pending>)
    ensures PendingSize(a + b) == PendingSize(a) + PendingSize(b)
  {
    if b == [] {
      assert a + b == a;
    } else {
      PendingSizeConcat(a, b[..|b| - 1]);
      assert (a + b)[..|a + b| - 1] == a + b[..|b| - 1];
    }
  }

  lemma {:induction false} PendSize(path: Path, children: seq<Child>)
    ensures PendingSize(Pend(path, children)) == SizeAll(children)
  {
    if children != [] {
      var first := [Pending(path + [children[0].name], children[0].dir)];
      PendSize(path, children[1..]);
      PendingSizeConcat(first, Pend(path, children[1..]));
      assert first[..0] == [];
    }
  }

  lemma {:induction false} PendAt(path: Path, children: seq<Child>)
    ensures |Pend(path, children)| == |children|
    ensures forall i :: 0 <= i < |children| ==>
              Pend(path, children)[i] == Pending(path + [children[i].name], children[i].dir)
  {
    if children != [] {
      PendAt(path, children[1..]);
    }
  }

  ghost predicate PendingListed(fold: string -> string, stack: seq<Pending>, listed: set<Path>) {
    forall i :: 0 <= i < |stack| ==> FullyListed(fold, stack[i].dir, Key(fold, stack[i].path), listed)
  }

  /** Two child entries of the directory are listed. */
  ghost predicate TwoChildrenListed(fold: string -> string, dir: Dir, key: Path, listed: set<Path>) {
    exists i, j :: 0 <= i < j < |dir.children|
                   && key + [fold(dir.children[i].name)] in listed && key + [fold(dir.children[j].name)] in listed
  }

  /** The candidate's subdirectories are all listed, at every depth, and at least two of them are its own. */
  ghost predicate SubtreeIsFullyListed(fold: string -> string, found: Option<Dir>, key: Path, listed: set<Path>) {
    && found.Some? && found.value.readable
    && TwoChildrenListed(fold, found.value, key, listed)
    && AllBelowListed(fold, found.value, key, listed)
  }

  /** Walks the tree below a candidate with a stack of directories still to visit. */
  method DirectorySubtreeIsFullyListed(fold: string -> string, found: Option<Dir>, path: Path, listed: set<Path>)
    returns (result: bool)
    ensures result <==>
            && found.Some? && found.value.readable && AllReadableBelow(found.value)
            && Descendants(fold, found.value, Key(fold, path)) <= listed
            && exists i, j :: 0 <= i < j < |found.value.children|
                              && Key(fold, path) + [fold(found.value.children[i].name)] in listed
                              && Key(fold, path) + [fold(found.value.children[j].name)] in listed
    ensures result <==> SubtreeIsFullyListed(fold, found, Key(fold, path), listed)
  {
    hide Key, AllReadableBelow, Descendants;
    if found.None? || !found.value.readable {
      return false;
    }
    var children := found.value.children;
    if children == [] {
      return false;
    }
    var stack := Pend(path, children);
    AllBelowListedMeans(fold, found.value, Key(fold, path), listed);
    var immediateListedChildren := 0;
    ghost var a, b := 0, 0;
    for i := 0 to |children|
      invariant immediateListedChildren == 0 ==>
                  forall k :: 0 <= k < i ==> Key(fold, path) + [fold(children[k].name)] !in listed
      invariant immediateListedChildren == 1 ==>
                  forall k :: 0 <= k < i && k != a ==> Key(fold, path) + [fold(children[k].name)] !in listed
      invariant immediateListedChildren >= 1 ==> 0 <= a < i && Key(fold, path) + [fold(children[a].name)] in listed
      invariant immediateListedChildren >= 2 ==> a < b < i && Key(fold, path) + [fold(children[b].name)] in listed
      invariant immediateListedChildren >= 0
    {
      KeySnoc(fold, path, children[i].name);
      if Key(fold, path + [children[i].name]) in listed {
        a, b := if immediateListedChildren == 0 then i else a, if immediateListedChildren == 1 then i else b;
        immediateListedChildren := immediateListedChildren + 1;
      }
    }
    if immediateListedChildren < 2 {
      return false;
    }
    PendVerdict(fold, path, found.value, listed);
    while stack != []
      invariant AllBelowListed(fold, found.value, Key(fold, path), listed) <==> PendingListed(fold, stack, listed)
      decreases PendingSize(stack)
    {
      var current := stack[|stack| - 1];
      ghost var before := stack;
      stack := stack[..|stack| - 1];
      assert before == stack + [current];
      PendingListedConcat(fold, stack, [current], listed);
      assert [current][0] == current;
      if Key(fold, current.path) !in listed {
        return false;
      }
      if !current.dir.readable {
        return false;
      }
      PendVerdict(fold, current.path, current.dir, listed);
      PendingListedConcat(fold, stack, Pend(current.path, current.dir.children), listed);
      PendSize(current.path, current.dir.children);
      PendingSizeConcat(stack, Pend(current.path, current.dir.children));
      stack := stack + Pend(current.path, current.dir.children);
    }
    return true;
  }

  /** Pending a directory's children asks the same of the tree below it. */
  lemma PendVerdict(fold: string -> string, path: Path, dir: Dir, listed: set<Path>)
    ensures AllBelowListed(fold, dir, Key(fold, path), listed)
       <==> PendingListed(fold, Pend(path, dir.children), listed)
  {
    hide Key;
    PendAt(path, dir.children);
    forall i | 0 <= i < |dir.children|
      ensures Key(fold, Pend(path, dir.children)[i].path) == Key(fold, path) + [fold(dir.children[i].name)]
    {
      KeySnoc(fold, path, dir.children[i].name);
    }
    if PendingListed(fold, Pend(path, dir.children), listed) {
      forall i | 0 <= i < |dir.children|
        ensures FullyListed(fold, dir.children[i].dir, Key(fold, path) + [fold(dir.children[i].name)], listed)
      {
        assert Pend(path, dir.children)[i].dir == dir.children[i].dir;
      }
    }
  }

  lemma PendingListedConcat(fold: string -> string, a: seq<Pending>, b: seq<Pending>, listed: set<Path>)
    ensures PendingListed(fold, a + b, listed) <==> PendingListed(fold, a, listed) && PendingListed(fold, b, listed)
  {
    assert forall i :: 0 <= i < |a| ==> (a + b)[i] == a[i];
    assert forall i :: 0 <= i < |b| ==> (a + b)[|a| + i] == b[i];
  }

  // ---------------------------------------------------------------- what a verdict on a subtree means

  ghost predicate AllReadableBelow(dir: Dir) {
    forall i :: 0 <= i < |dir.children| ==> dir.children[i].dir.readable && AllReadableBelow(dir.children[i].dir)
  }

  /** Walking child by child says of the whole tree that it can be read and that every directory in it is listed. */
  lemma {:induction false} AllBelowListedMeans(fold: string -> string, dir: Dir, key: Path, listed: set<Path>)
    ensures AllBelowListed(fold, dir, key, listed) <==>
            AllReadableBelow(dir) && Descendants(fold, dir, key) <= listed
  {
    forall i | 0 <= i < |dir.children|
      ensures var below := key + [fold(dir.children[i].name)]; var child := dir.children[i].dir;
              FullyListed(fold, child, below, listed) <==>
              child.readable && AllReadableBelow(child) && {below} + Descendants(fold, child, below) <= listed
    {
      AllBelowListedMeans(fold, dir.children[i].dir, key + [fold(dir.children[i].name)], listed);
    }
    if Descendants(fold, dir, key) <= listed {
      forall i | 0 <= i < |dir.children|
        ensures var below := key + [fold(dir.children[i].name)];
                {below} + Descendants(fold, dir.children[i].dir, below) <= listed
      {
        var below := key + [fold(dir.children[i].name)];
        var keys := {below} + Descendants(fold, dir.children[i].dir, below);
        assert forall k :: k in keys ==> k in Descendants(fold, dir, key);
      }
    }
  }

  // ---------------------------------------------------------------- stable sorting

  function Insert(xs: seq<Path>, x: Path, rank: Path -> int): seq<Path> {
    var n := |xs| - 1;
    if xs == [] || rank(xs[n]) <= rank(x) then xs + [x] else Insert(xs[..n], x, rank) + [xs[n]]
  }

  /** Python's stable `sorted` with a key function. */
  function SortBy(xs: seq<Path>, rank: Path -> int): seq<Path> {
    if xs == [] then [] else Insert(SortBy(xs[..|xs| - 1], rank), xs[|xs| - 1], rank)
  }

  predicate Ordered(xs: seq<Path>, rank: Path -> int) {
    forall i, j :: 0 <= i < j < |xs| ==> rank(xs[i]) <= rank(xs[j])
  }

  lemma {:induction false} InsertBounded(xs: seq<Path>, x: Path, rank: Path -> int, bound: int)
    requires rank(x) <= bound && forall i :: 0 <= i < |xs| ==> rank(xs[i]) <= bound
    ensures forall i :: 0 <= i < |Insert(xs, x, rank)| ==> rank(Insert(xs, x, rank)[i]) <= bound
  {
    var n := |xs| - 1;
    if xs != [] && rank(xs[n]) > rank(x) {
      InsertBounded(xs[..n], x, rank, bound);
    }
  }

  lemma {:induction false} InsertOrders(xs: seq<Path>, x: Path, rank: Path -> int)
    requires Ordered(xs, rank)
    ensures Ordered(Insert(xs, x, rank), rank)
  {
    var n := |xs| - 1;
    if xs != [] && rank(xs[n]) > rank(x) {
      InsertOrders(xs[..n], x, rank);
      InsertBounded(xs[..n], x, rank, rank(xs[n]));
    }
  }

  lemma {:induction false} InsertAdds(xs: seq<Path>, x: Path, rank: Path -> int)
    ensures multiset(Insert(xs, x, rank)) == multiset(xs) + multiset{x}
  {
    var n := |xs| - 1;
    if xs != [] && rank(xs[n]) > rank(x) {
      InsertAdds(xs[..n], x, rank);
      assert xs == xs[..n] + [xs[n]];
    }
  }

  lemma {:induction false} SortByOrders(xs: seq<Path>, rank: Path -> int)
    ensures Ordered(SortBy(xs, rank), rank) && multiset(SortBy(xs, rank)) == multiset(xs)
  {
    if xs != [] {
      hide Insert, Ordered;
      var n := |xs| - 1;
      SortByOrders(xs[..n], rank);
      InsertOrders(SortBy(xs[..n], rank), xs[n], rank);
      InsertAdds(SortBy(xs[..n], rank), xs[n], rank);
      assert xs == xs[..n] + [xs[n]];
    }
  }

  // ---------------------------------------------------------------- collapsing

  function Keys(fold: string -> string, paths: seq<Path>): (keys: seq<Path>)
    ensures |keys| == |paths| && forall i :: 0 <= i < |paths| ==> keys[i] == Key(fold, paths[i])
  {
    seq(|paths|, i requires 0 <= i < |paths| => Key(fold, paths[i]))
  }

  function Locate(fold: string -> string, volumes: map<string, Dir>, key: Path): Option<Dir> {
    if key != [] && key[0] in volumes then Find(fold, volumes[key[0]], key[1..]) else None
  }

  lemma {:induction false} FindSnoc(fold: string -> string, dir: Dir, key: Path, name: string)
    ensures Find(fold, dir, key + [name]) ==
            if Find(fold, dir, key).None? then None else FindChild(fold, Find(fold, dir, key).value.children, name)
    decreases |key|
  {
    if key == [] {
      assert [] + [name] == [name] && [name][1..] == [];
    } else {
      assert (key + [name])[1..] == key[1..] + [name];
      if FindChild(fold, dir.children, key[0]).Some? {
        FindSnoc(fold, FindChild(fold, dir.children, key[0]).value, key[1..], name);
      }
    }
  }

  /** A key locates a volume, and with one more name the child of that name of what it located before. */
  lemma LocateMeans(fold: string -> string, volumes: map<string, Dir>, key: Path, name: string)
    ensures Locate(fold, volumes, [name]) == if name in volumes then Some(volumes[name]) else None
    ensures key != [] ==>
              Locate(fold, volumes, key + [name]) ==
              if Locate(fold, volumes, key).None? then None
              else FindChild(fold, Locate(fold, volumes, key).value.children, name)
  {
    assert [name][1..] == [];
    if key != [] && key[0] in volumes {
      assert (key + [name])[1..] == key[1..] + [name];
      FindSnoc(fold, volumes[key[0]], key[1..], name);
    }
  }

  /** What a key returned without being listed has below it: two listed child entries, and nothing unlisted. */
  lemma UnlistedRootMeans(fold: string -> string, volumes: map<string, Dir>, key: Path, keys: seq<Path>)
    ensures IsEligible(fold, volumes, key, keys) <==>
            || key in keys
            || HasTwoListedEntries(fold, volumes, key, keys)
  {
    var found := Locate(fold, volumes, key);
    hide Locate, Descendants, AllReadableBelow;
    if found.Some? {
      AllBelowListedMeans(fold, found.value, key, set k | k in keys);
    }
  }

  /** The place in the list of the first listed key at or under `key`; a key listed twice counts at its last place. */
  function FirstListed(keys: seq<Path>, key: Path, from: nat): (place: Option<nat>)
    requires from <= |keys|
    ensures place.Some? ==> from <= place.value < |keys| && IsUnder(keys[place.value], key)
    decreases |keys| - from
  {
    if from == |keys| then None
    else if IsUnder(keys[from], key) && keys[from] !in keys[from + 1..] then Some(from)
    else FirstListed(keys, key, from + 1)
  }

  function Place(keys: seq<Path>, key: Path): int {
    FirstListed(keys, key, 0).GetOr(0)
  }

  lemma {:induction false} FirstListedExists(keys: seq<Path>, key: Path, from: nat, j: nat)
    requires from <= j < |keys| && IsUnder(keys[j], key)
    ensures FirstListed(keys, key, from).Some?
    decreases |keys| - from, |keys| - j
  {
    if keys[j] in keys[j + 1..] {
      var k :| j + 1 <= k < |keys| && keys[k] == keys[j];
      FirstListedExists(keys, key, from, k);
    } else if from < j {
      FirstListedExists(keys, key, from + 1, j);
    }
  }

  /** The least place that holds the last occurrence of a key at or under `key`; None only when there is no such key. */
  lemma FirstListedIsLeast(keys: seq<Path>, key: Path, from: nat)
    requires from <= |keys|
    ensures FirstListed(keys, key, from).None? <==> forall j :: from <= j < |keys| ==> !(key <= keys[j])
    ensures FirstListed(keys, key, from).Some? ==>
              var place := FirstListed(keys, key, from).value;
              && from <= place < |keys| && key <= keys[place] && keys[place] !in keys[place + 1..]
              && forall j :: from <= j < place && key <= keys[j] ==> keys[j] in keys[j + 1..]
  {
    hide FirstListed;
    forall j | from <= j < |keys| && key <= keys[j]
      ensures FirstListed(keys, key, from).Some?
    {
      FirstListedExists(keys, key, from, j);
    }
    if FirstListed(keys, key, from).Some? {
      EarlierComeAgain(keys, key, from);
    }
  }

  lemma {:induction false} EarlierComeAgain(keys: seq<Path>, key: Path, from: nat)
    requires from <= |keys| && FirstListed(keys, key, from).Some?
    ensures var place := FirstListed(keys, key, from).value;
            && keys[place] !in keys[place + 1..]
            && forall j :: from <= j < place && IsUnder(keys[j], key) ==> keys[j] in keys[j + 1..]
    decreases |keys| - from
  {
    hide IsUnder;
    if !(IsUnder(keys[from], key) && keys[from] !in keys[from + 1..]) {
      EarlierComeAgain(keys, key, from + 1);
    }
  }

  /** Two paths above the same path lie one above the other. */
  lemma AboveTheSame(a: Path, b: Path, below: Path)
    requires IsUnder(below, a) && IsUnder(below, b)
    ensures IsUnder(a, b) || IsUnder(b, a)
  {
    if |a| <= |b| {
      assert a == below[..|a|] == b[..|a|];
    } else {
      assert b == below[..|b|] == a[..|b|];
    }
  }

  ghost predicate Antichain(keys: seq<Path>) {
    forall i, j :: 0 <= i < |keys| && 0 <= j < |keys| && i != j ==> !IsUnder(keys[i], keys[j])
  }

  /** `key` lies at or under some selected key. */
  predicate IsCovered(key: Path, selected: seq<Path>) {
    exists i :: 0 <= i < |selected| && IsUnder(key, selected[i])
  }

  lemma CoveredSnoc(selected: seq<Path>, key: Path)
    ensures forall k :: IsCovered(k, selected) ==> IsCovered(k, selected + [key])
    ensures IsCovered(key, selected + [key])
  {
    forall k | IsCovered(k, selected)
      ensures IsCovered(k, selected + [key])
    {
      var i :| 0 <= i < |selected| && IsUnder(k, selected[i]);
      assert (selected + [key])[i] == selected[i];
    }
    assert (selected + [key])[|selected|] == key;
  }

  /** A key is listed, or is the parent of a listed key. */
  ghost predicate IsCandidate(key: Path, keys: seq<Path>) {
    key in keys || exists j :: 0 <= j < |keys| && |keys[j]| == |key| + 1 && IsUnder(keys[j], key)
  }

  /** A key may be selected when it is listed, or when its subtree is fully listed. */
  ghost predicate IsEligible(fold: string -> string, volumes: map<string, Dir>, key: Path, keys: seq<Path>) {
    key in keys || SubtreeIsFullyListed(fold, Locate(fold, volumes, key), key, set k | k in keys)
  }

  /** The selected keys are eligible candidates, and every eligible candidate lies at or under one of them. */
  ghost predicate SelectsEligible(fold: string -> string, volumes: map<string, Dir>, selected: seq<Path>,
                                  keys: seq<Path>) {
    && (forall i :: 0 <= i < |selected| ==>
          IsCandidate(selected[i], keys) && IsEligible(fold, volumes, selected[i], keys))
    && (forall key :: IsCandidate(key, keys) && IsEligible(fold, volumes, key, keys) ==> IsCovered(key, selected))
  }

  /** Every key has a display that folds to it, and is a listed key or the parent of one. */
  ghost predicate DisplaysFit(fold: string -> string, displays: map<Path, Path>, keys: seq<Path>) {
    forall k :: k in displays ==> DisplayFits(fold, k, displays[k], keys)
  }

  ghost predicate DisplayFits(fold: string -> string, key: Path, display: Path, keys: seq<Path>) {
    Key(fold, display) == key && |key| >= 2 && KeepsVolume(fold, display) && IsCandidate(key, keys)
  }

  /** Folding the volume of a path leaves its separators; a share has two before its name and one in it. */
  predicate KeepsVolume(fold: string -> string, path: Path) {
    path != [] && CountSeparators(fold(path[0])) == CountSeparators(path[0])
  }

  /** Folding character by character. */
  function Folded(s: string, lower: char -> char): string {
    if s == "" then "" else [lower(s[0])] + Folded(s[1..], lower)
  }

  /**
   A fold that turns both slashes, and nothing else, into a separator keeps the separators of every volume that is
   spelled with separators only, as that of an absolute path is.
   */
  lemma {:induction false} SlashFoldKeepsVolume(volume: string, lower: char -> char)
    requires forall c :: lower(c) == '\\' <==> c == '\\' || c == '/'
    requires '/' !in volume
    ensures CountSeparators(Folded(volume, lower)) == CountSeparators(volume)
  {
    if volume != "" {
      SlashFoldKeepsVolume(volume[1..], lower);
    }
  }

  lemma CandidatesOfRoot(fold: string -> string, roots: seq<Path>, j: nat)
    requires j < |roots| && |roots[j]| >= 3 && KeepsVolume(fold, roots[j])
    ensures |CandidatePaths(roots[j])| == 2
    ensures forall p :: 0 <= p < 2 ==>
              var path := CandidatePaths(roots[j])[p];
              DisplayFits(fold, Key(fold, path), path, Keys(fold, roots))
  {
    var keys := Keys(fold, roots);
    var parent := roots[j][..|roots[j]| - 1];
    assert Key(fold, parent) == keys[j][..|keys[j]| - 1];
    assert IsUnder(keys[j], Key(fold, parent)) && keys[j] in keys;
  }

  /** The candidates found so far: those of the first `j` roots and the first `p` of one more. */
  ghost predicate Gathered(fold: string -> string, roots: seq<Path>, j: nat, p: nat, displays: map<Path, Path>,
                           order: seq<Path>)
    requires j <= |roots|
  {
    && (forall k :: k in displays <==> k in order)
    && (forall i, q :: 0 <= i < j && 0 <= q < |CandidatePaths(roots[i])| ==>
          Key(fold, CandidatePaths(roots[i])[q]) in displays)
    && (j < |roots| ==> forall q :: 0 <= q < p && q < |CandidatePaths(roots[j])| ==>
          Key(fold, CandidatePaths(roots[j])[q]) in displays)
    && DisplaysFit(fold, displays, Keys(fold, roots))
  }

  lemma GatherStep(fold: string -> string, roots: seq<Path>, j: nat, p: nat, displays: map<Path, Path>,
                   order: seq<Path>)
    requires j < |roots| && |roots[j]| >= 3 && KeepsVolume(fold, roots[j])
    requires p < |CandidatePaths(roots[j])| && Gathered(fold, roots, j, p, displays, order)
    ensures var path := CandidatePaths(roots[j])[p];
            var key := Key(fold, path);
            Gathered(fold, roots, j, p + 1, displays[key := path], if key in displays then order else order + [key])
  {
    CandidatesOfRoot(fold, roots, j);
    hide Key, CandidatePaths, DisplayFits, KeepsVolume;
  }

  /** Each path replaces the spelling that its key had before. */
  function Respell(fold: string -> string, displays: map<Path, Path>, paths: seq<Path>): map<Path, Path> {
    if paths == [] then displays
    else
      var path := paths[|paths| - 1];
      Respell(fold, displays, paths[..|paths| - 1])[Key(fold, path) := path]
  }

  lemma NothingRespelled(fold: string -> string, displays: map<Path, Path>, paths: seq<Path>)
    ensures Respell(fold, displays, paths[..0]) == displays
  {
  }

  lemma RespellSnoc(fold: string -> string, displays: map<Path, Path>, paths: seq<Path>, p: nat)
    requires p < |paths|
    ensures Respell(fold, displays, paths[..p + 1]) ==
            Respell(fold, displays, paths[..p])[Key(fold, paths[p]) := paths[p]]
  {
    assert paths[..p + 1][..p] == paths[..p];
  }

  function Spellings(fold: string -> string, roots: seq<Path>): map<Path, Path> {
    if roots == [] then map[]
    else
      var n := |roots| - 1;
      Respell(fold, Spellings(fold, roots[..n]), CandidatePaths(roots[n]))
  }

  lemma SpellingsSnoc(fold: string -> string, roots: seq<Path>, j: nat)
    requires j < |roots|
    ensures Spellings(fold, roots[..j + 1]) == Respell(fold, Spellings(fold, roots[..j]), CandidatePaths(roots[j]))
  {
    assert roots[..j + 1][..j] == roots[..j];
  }

  /** A listed root or its parent has the key of `path`. */
  predicate Spells(fold: string -> string, root: Path, path: Path) {
    |root| >= 2 && (Key(fold, root) == Key(fold, path) || Key(fold, root[..|root| - 1]) == Key(fold, path))
  }

  /** A returned path is a listed root or the parent of one, in the last spelling that its key has among them. */
  ghost predicate SpelledLast(fold: string -> string, roots: seq<Path>, path: Path) {
    exists j: nat :: SpelledAt(fold, roots, path, j)
  }

  predicate SpelledAt(fold: string -> string, roots: seq<Path>, path: Path, j: nat) {
    && j < |roots| && |roots[j]| >= 2 && (path == roots[j] || path == roots[j][..|roots[j]| - 1])
    && forall m :: j < m < |roots| ==> !Spells(fold, roots[m], path)
  }

  /** Both candidates of one root, one after the other. */
  lemma RespellPair(fold: string -> string, displays: map<Path, Path>, root: Path)
    requires |root| >= 2
    ensures Respell(fold, displays, CandidatePaths(root)) ==
            displays[Key(fold, root[..|root| - 1]) := root[..|root| - 1]][Key(fold, root) := root]
  {
    var parent := root[..|root| - 1];
    var paths := CandidatePaths(root);
    assert paths == [parent, root] && paths[..2] == paths;
    NothingRespelled(fold, displays, paths);
    RespellSnoc(fold, displays, paths, 0);
    RespellSnoc(fold, displays, paths, 1);
  }

  lemma {:induction false} SpellingsAreLast(fold: string -> string, roots: seq<Path>)
    requires forall j :: 0 <= j < |roots| ==> |roots[j]| >= 2
    ensures forall k :: k in Spellings(fold, roots) ==>
              Key(fold, Spellings(fold, roots)[k]) == k && SpelledLast(fold, roots, Spellings(fold, roots)[k])
  {
    if roots != [] {
      hide Key, CandidatePaths, Respell, SpelledLast;
      var n := |roots| - 1;
      var earlier := Spellings(fold, roots[..n]);
      SpellingsAreLast(fold, roots[..n]);
      RespellPair(fold, earlier, roots[n]);
      SpelledHere(fold, roots);
      forall k | k in Spellings(fold, roots) && k in earlier && Spellings(fold, roots)[k] == earlier[k]
                 && !Spells(fold, roots[n], earlier[k])
        ensures SpelledLast(fold, roots, earlier[k])
      {
        SpelledLastSnoc(fold, roots, earlier[k]);
      }
    }
  }

  lemma SpelledHere(fold: string -> string, roots: seq<Path>)
    requires roots != [] && |roots[|roots| - 1]| >= 2
    ensures var root := roots[|roots| - 1];
            SpelledLast(fold, roots, root) && SpelledLast(fold, roots, root[..|root| - 1])
  {
    hide Spells;
    var n: nat, root := |roots| - 1, roots[|roots| - 1];
    assert SpelledAt(fold, roots, root, n) && SpelledAt(fold, roots, root[..|root| - 1], n);
  }

  lemma SpelledLastSnoc(fold: string -> string, roots: seq<Path>, path: Path)
    requires roots != [] && SpelledLast(fold, roots[..|roots| - 1], path)
    requires !Spells(fold, roots[|roots| - 1], path)
    ensures SpelledLast(fold, roots, path)
  {
    hide Spells;
    var j: nat :| SpelledAt(fold, roots[..|roots| - 1], path, j);
    assert SpelledAt(fold, roots, path, j);
  }

  lemma GatherNext(fold: string -> string, roots: seq<Path>, j: nat, displays: map<Path, Path>, order: seq<Path>)
    requires j < |roots| && Gathered(fold, roots, j, |CandidatePaths(roots[j])|, displays, order)
    ensures Gathered(fold, roots, j + 1, 0, displays, order)
  {
    hide Key, CandidatePaths, DisplaysFit;
  }

  /** The candidates by key, with their displays, and the order in which the keys first came up. */
  method GatherCandidates(fold: string -> string, roots: seq<Path>)
    returns (displays: map<Path, Path>, order: seq<Path>)
    requires forall j :: 0 <= j < |roots| ==> |roots[j]| >= 3 && KeepsVolume(fold, roots[j])
    ensures forall k :: k in displays <==> k in order
    ensures forall k :: IsCandidate(k, Keys(fold, roots)) ==> k in displays
    ensures DisplaysFit(fold, displays, Keys(fold, roots))
    ensures displays == Spellings(fold, roots)
  {
    assert Gathered(fold, roots, 0, 0, map[], []) && Spellings(fold, roots[..0]) == map[];
    hide Key, IsCandidate, Gathered, CandidatePaths, Respell, Spellings;
    displays, order := map[], [];
    for j := 0 to |roots|
      invariant Gathered(fold, roots, j, 0, displays, order)
      invariant displays == Spellings(fold, roots[..j])
    {
      var paths := CandidatePaths(roots[j]);
      ghost var earlier := displays;
      NothingRespelled(fold, earlier, paths);
      for p := 0 to |paths|
        invariant Gathered(fold, roots, j, p, displays, order)
        invariant displays == Respell(fold, earlier, paths[..p])
      {
        var key := Key(fold, paths[p]);
        GatherStep(fold, roots, j, p, displays, order);
        RespellSnoc(fold, earlier, paths, p);
        if key !in displays {
          order := order + [key];
        }
        displays := displays[key := paths[p]];
      }
      assert paths[..|paths|] == paths;
      SpellingsSnoc(fold, roots, j);
      GatherNext(fold, roots, j, displays, order);
    }
    assert roots[..|roots|] == roots;
    AllGathered(fold, roots, displays, order);
  }

  lemma AllGathered(fold: string -> string, roots: seq<Path>, displays: map<Path, Path>, order: seq<Path>)
    requires Gathered(fold, roots, |roots|, 0, displays, order) && forall j :: 0 <= j < |roots| ==> |roots[j]| >= 3
    ensures forall k :: k in displays <==> k in order
    ensures forall k :: IsCandidate(k, Keys(fold, roots)) ==> k in displays
    ensures DisplaysFit(fold, displays, Keys(fold, roots))
  {
    hide Key, IsCandidate;
    forall k | IsCandidate(k, Keys(fold, roots))
      ensures k in displays
    {
      var j, p := CandidateOf(fold, roots, k);
    }
  }

  /** A candidate comes from one of the roots. */
  lemma CandidateOf(fold: string -> string, roots: seq<Path>, key: Path) returns (j: nat, p: nat)
    requires IsCandidate(key, Keys(fold, roots)) && forall j :: 0 <= j < |roots| ==> |roots[j]| >= 3
    ensures j < |roots| && p < 2 && Key(fold, CandidatePaths(roots[j])[p]) == key
  {
    var keys := Keys(fold, roots);
    if key in keys {
      j :| 0 <= j < |keys| && keys[j] == key;
      p := 1;
    } else {
      j :| 0 <= j < |keys| && |keys[j]| == |key| + 1 && IsUnder(keys[j], key);
      p := 0;
      assert key == keys[j][..|key|];
    }
  }

  /** A key above another has fewer separators in its display. */
  lemma FewerSeparatorsAbove(fold: string -> string, above: Path, below: Path)
    requires KeepsVolume(fold, above) && KeepsVolume(fold, below)
    requires IsUnder(Key(fold, below), Key(fold, above)) && Key(fold, below) != Key(fold, above)
    ensures Separators(above) < Separators(below)
  {
    assert |above| == |Key(fold, above)| && |below| == |Key(fold, below)|;
    assert |above| == |below| ==> Key(fold, above) == Key(fold, below);
    assert fold(above[0]) == Key(fold, above)[0] == Key(fold, below)[0] == fold(below[0]);
  }

  lemma AntichainSnoc(selected: seq<Path>, key: Path)
    requires Antichain(selected)
    requires forall i :: 0 <= i < |selected| ==> !IsUnder(selected[i], key) && !IsUnder(key, selected[i])
    ensures Antichain(selected + [key])
  {
  }

  lemma StaysAntichain(fold: string -> string, displays: map<Path, Path>, keys: seq<Path>, earlier: seq<Path>,
                       selected: seq<Path>, key: Path)
    requires DisplaysFit(fold, displays, keys) && key in displays
    requires forall k <- earlier :: k in displays && Separators(displays[k]) <= Separators(displays[key])
    requires forall i :: 0 <= i < |selected| ==> selected[i] in earlier
    requires Antichain(selected) && !IsCovered(key, selected)
    ensures Antichain(selected + [key])
  {
    hide IsCandidate, Separators;
    forall i | 0 <= i < |selected| && IsUnder(selected[i], key)
      ensures false
    {
      assert DisplayFits(fold, key, displays[key], keys);
      assert DisplayFits(fold, selected[i], displays[selected[i]], keys);
      FewerSeparatorsAbove(fold, displays[key], displays[selected[i]]);
    }
    AntichainSnoc(selected, key);
  }

  /** After some candidates: each selected one is eligible and among them, and they cover the eligible ones. */
  ghost predicate Selecting(fold: string -> string, volumes: map<string, Dir>, earlier: seq<Path>, selected: seq<Path>,
                            keys: seq<Path>)
  {
    && Antichain(selected)
    && (forall i :: 0 <= i < |selected| ==> selected[i] in earlier && IsEligible(fold, volumes, selected[i], keys))
    && (forall k <- earlier :: IsEligible(fold, volumes, k, keys) ==> IsCovered(k, selected))
  }

  lemma NothingSelected(fold: string -> string, volumes: map<string, Dir>, keys: seq<Path>)
    ensures Selecting(fold, volumes, [], [], keys)
  {
  }

  /** One more candidate: passed over when it is covered or not eligible, selected otherwise. */
  lemma SelectStep(fold: string -> string, volumes: map<string, Dir>, displays: map<Path, Path>, keys: seq<Path>,
                   earlier: seq<Path>, selected: seq<Path>, key: Path)
    requires Selecting(fold, volumes, earlier, selected, keys)
    requires DisplaysFit(fold, displays, keys) && key in displays
    requires forall k <- earlier :: k in displays && Separators(displays[k]) <= Separators(displays[key])
    ensures IsCovered(key, selected) || !IsEligible(fold, volumes, key, keys) ==>
              Selecting(fold, volumes, earlier + [key], selected, keys)
    ensures !IsCovered(key, selected) && IsEligible(fold, volumes, key, keys) ==>
              Selecting(fold, volumes, earlier + [key], selected + [key], keys)
  {
    hide IsEligible, IsCandidate, IsCovered, Antichain, DisplaysFit, Separators;
    if !IsCovered(key, selected) && IsEligible(fold, volumes, key, keys) {
      StaysAntichain(fold, displays, keys, earlier, selected, key);
      CoveredSnoc(selected, key);
    }
  }

  lemma SelectedAll(fold: string -> string, volumes: map<string, Dir>, displays: map<Path, Path>, keys: seq<Path>,
                    candidates: seq<Path>, selected: seq<Path>)
    requires Selecting(fold, volumes, candidates, selected, keys) && DisplaysFit(fold, displays, keys)
    requires forall k <- candidates :: k in displays
    requires forall k :: IsCandidate(k, keys) ==> k in candidates
    ensures Antichain(selected) && SelectsEligible(fold, volumes, selected, keys)
    ensures forall i :: 0 <= i < |selected| ==> selected[i] in displays
  {
    hide IsEligible, IsCandidate, IsCovered, Antichain, Key, KeepsVolume;
    forall i | 0 <= i < |selected|
      ensures IsCandidate(selected[i], keys)
    {
      assert DisplayFits(fold, selected[i], displays[selected[i]], keys);
    }
  }

  /** Takes each candidate, shallowest first, that no earlier one covers and that may stand for its subtree. */
  method SelectRoots(fold: string -> string, volumes: map<string, Dir>, displays: map<Path, Path>,
                     candidates: seq<Path>, keys: seq<Path>) returns (selected: seq<Path>)
    requires DisplaysFit(fold, displays, keys)
    requires forall i :: 0 <= i < |candidates| ==> candidates[i] in displays
    requires forall i, j :: 0 <= i < j < |candidates| ==>
               Separators(displays[candidates[i]]) <= Separators(displays[candidates[j]])
    requires forall k :: IsCandidate(k, keys) ==> k in candidates
    ensures Antichain(selected) && SelectsEligible(fold, volumes, selected, keys)
    ensures forall i :: 0 <= i < |selected| ==> selected[i] in displays
  {
    hide Key, IsUnder, IsCovered, SubtreeIsFullyListed, Separators, Antichain, IsCandidate, DisplaysFit, Selecting;
    hide SelectsEligible;
    var listed := set k | k in keys;
    selected := [];
    NothingSelected(fold, volumes, keys);
    for n := 0 to |candidates|
      invariant Selecting(fold, volumes, candidates[..n], selected, keys)
    {
      var candidate := candidates[n];
      assert candidates[..n + 1] == candidates[..n] + [candidate];
      SelectStep(fold, volumes, displays, keys, candidates[..n], selected, candidate);
      if !IsCovered(candidate, selected) {
        var eligible := candidate in listed;
        if !eligible {
          DisplayFolds(fold, displays, keys, candidate);
          var found := Locate(fold, volumes, candidate);
          eligible := DirectorySubtreeIsFullyListed(fold, found, displays[candidate], listed);
        }
        if eligible {
          selected := selected + [candidate];
        }
      }
    }
    assert candidates[..|candidates|] == candidates;
    SelectedAll(fold, volumes, displays, keys, candidates, selected);
  }

  lemma DisplayFolds(fold: string -> string, displays: map<Path, Path>, keys: seq<Path>, key: Path)
    requires DisplaysFit(fold, displays, keys) && key in displays
    ensures Key(fold, displays[key]) == key
  {
    hide Key, IsCandidate;
    assert DisplayFits(fold, key, displays[key], keys);
  }

  lemma {:induction false} AtMostOnce(xs: seq<Path>, x: Path)
    requires forall i, j :: 0 <= i < j < |xs| ==> xs[i] != xs[j]
    ensures multiset(xs)[x] <= 1
  {
    if xs != [] {
      var n := |xs| - 1;
      AtMostOnce(xs[..n], x);
      assert xs == xs[..n] + [xs[n]];
    }
  }

  lemma TwiceAtLeast(xs: seq<Path>, i: nat, j: nat)
    requires i < j < |xs| && xs[i] == xs[j]
    ensures multiset(xs)[xs[i]] >= 2
  {
    assert xs == xs[..j] + [xs[j]] + xs[j + 1..];
    assert xs[..j][i] in multiset(xs[..j]);
  }

  /** An antichain stays one in any order. */
  lemma AntichainInAnyOrder(xs: seq<Path>, ys: seq<Path>)
    requires Antichain(xs) && multiset(xs) == multiset(ys)
    ensures Antichain(ys)
  {
    forall i, j | 0 <= i < |ys| && 0 <= j < |ys| && i != j
      ensures !IsUnder(ys[i], ys[j])
    {
      assert ys[i] in multiset(xs) && ys[j] in multiset(xs);
      if ys[i] == ys[j] {
        AtMostOnce(xs, ys[i]);
        TwiceAtLeast(ys, if i < j then i else j, if i < j then j else i);
        assert false;
      }
      var a :| 0 <= a < |xs| && xs[a] == ys[i];
      var b :| 0 <= b < |xs| && xs[b] == ys[j];
    }
  }

  lemma CoveredInAnyOrder(xs: seq<Path>, ys: seq<Path>, key: Path)
    requires IsCovered(key, xs) && multiset(xs) == multiset(ys)
    ensures IsCovered(key, ys)
  {
    var i :| 0 <= i < |xs| && IsUnder(key, xs[i]);
    assert xs[i] in multiset(ys);
  }

  lemma SelectsInAnyOrder(fold: string -> string, volumes: map<string, Dir>, xs: seq<Path>, ys: seq<Path>,
                          keys: seq<Path>)
    requires SelectsEligible(fold, volumes, xs, keys) && multiset(xs) == multiset(ys)
    ensures SelectsEligible(fold, volumes, ys, keys)
  {
    hide IsEligible, IsCandidate, IsCovered;
    forall i | 0 <= i < |ys|
      ensures IsCandidate(ys[i], keys) && IsEligible(fold, volumes, ys[i], keys)
    {
      assert ys[i] in multiset(xs);
    }
    forall key | IsCandidate(key, keys) && IsEligible(fold, volumes, key, keys)
      ensures IsCovered(key, ys)
    {
      CoveredInAnyOrder(xs, ys, key);
    }
  }

  /** Under an antichain a path lies below at most one member. */
  lemma UnderOnlyOne(selected: seq<Path>, key: Path, i: nat, j: nat)
    requires Antichain(selected) && i < |selected| && j < |selected|
    requires IsUnder(key, selected[i]) && IsUnder(key, selected[j])
    ensures i == j
  {
    AboveTheSame(selected[i], selected[j], key);
  }

  /** Each listed key lies under one selected key, and under one only. */
  ghost predicate Partitions(selected: seq<Path>, keys: seq<Path>) {
    forall j :: 0 <= j < |keys| ==>
      IsCovered(keys[j], selected)
      && forall a, b | 0 <= a < |selected| && 0 <= b < |selected| ::
           IsUnder(keys[j], selected[a]) && IsUnder(keys[j], selected[b]) ==> a == b
  }

  lemma CandidateHasPlace(keys: seq<Path>, key: Path)
    requires IsCandidate(key, keys)
    ensures FirstListed(keys, key, 0).Some? && 0 <= Place(keys, key) < |keys| && IsUnder(keys[Place(keys, key)], key)
  {
    if key in keys {
      var j :| 0 <= j < |keys| && keys[j] == key;
      FirstListedExists(keys, key, 0, j);
    } else {
      var j :| 0 <= j < |keys| && |keys[j]| == |key| + 1 && IsUnder(keys[j], key);
      FirstListedExists(keys, key, 0, j);
    }
  }

  /** The order in which the roots are returned: by the place of the first listed root below each. */
  ghost predicate InListedOrder(selected: seq<Path>, keys: seq<Path>) {
    && (forall i :: 0 <= i < |selected| ==> FirstListed(keys, selected[i], 0).Some?)
    && (forall i, j :: 0 <= i < j < |selected| ==> Place(keys, selected[i]) < Place(keys, selected[j]))
  }

  ghost predicate PlacedInOrder(selected: seq<Path>, keys: seq<Path>) {
    forall i, j :: 0 <= i < j < |selected| ==> Place(keys, selected[i]) <= Place(keys, selected[j])
  }

  lemma OrderIsStrict(fold: string -> string, volumes: map<string, Dir>, selected: seq<Path>, keys: seq<Path>)
    requires Antichain(selected) && PlacedInOrder(selected, keys)
    requires SelectsEligible(fold, volumes, selected, keys)
    ensures InListedOrder(selected, keys)
  {
    forall i | 0 <= i < |selected|
      ensures FirstListed(keys, selected[i], 0).Some?
    {
      CandidateHasPlace(keys, selected[i]);
    }
    forall i, j | 0 <= i < j < |selected|
      ensures Place(keys, selected[i]) < Place(keys, selected[j])
    {
      CandidateHasPlace(keys, selected[i]);
      CandidateHasPlace(keys, selected[j]);
      if Place(keys, selected[i]) == Place(keys, selected[j]) {
        UnderOnlyOne(selected, keys[Place(keys, selected[i])], i, j);
      }
    }
  }

  /** The candidates, shallowest first. */
  method SortByDepth(displays: map<Path, Path>, order: seq<Path>) returns (candidates: seq<Path>)
    requires forall k :: k in order ==> k in displays
    ensures forall k :: k in order <==> k in candidates
    ensures forall i, j :: 0 <= i < j < |candidates| ==>
              Separators(displays[candidates[i]]) <= Separators(displays[candidates[j]])
  {
    var depth := (key: Path) => if key in displays then Separators(displays[key]) else 0;
    candidates := SortBy(order, depth);
    SortByOrders(order, depth);
    assert forall k :: k in order <==> k in multiset(candidates);
    forall i, j | 0 <= i < j < |candidates|
      ensures Separators(displays[candidates[i]]) <= Separators(displays[candidates[j]])
    {
      assert depth(candidates[i]) <= depth(candidates[j]);
    }
  }

  /** The selected keys, by the place of the first listed root below each. */
  method SortByPlace(selected: seq<Path>, keys: seq<Path>) returns (ordered: seq<Path>)
    ensures multiset(ordered) == multiset(selected) && PlacedInOrder(ordered, keys)
  {
    var place := (key: Path) => Place(keys, key);
    ordered := SortBy(selected, place);
    SortByOrders(selected, place);
    forall i, j | 0 <= i < j < |ordered|
      ensures Place(keys, ordered[i]) <= Place(keys, ordered[j])
    {
      assert place(ordered[i]) <= place(ordered[j]);
    }
  }

  ghost predicate HasTwoListedEntries(fold: string -> string, volumes: map<string, Dir>, key: Path, keys: seq<Path>) {
    var found := Locate(fold, volumes, key);
    && found.Some? && found.value.readable && AllReadableBelow(found.value)
    && (forall k :: k in Descendants(fold, found.value, key) ==> k in keys)
    && exists i, j :: 0 <= i < j < |found.value.children|
                      && key + [fold(found.value.children[i].name)] in keys
                      && key + [fold(found.value.children[j].name)] in keys
  }

  /** Collapses the listed roots, each at least two components below its volume, into recursive ones. */
  method CollapseSharedRoots(fold: string -> string, volumes: map<string, Dir>, roots: seq<Path>)
    returns (result: seq<Path>)
    requires forall j :: 0 <= j < |roots| ==> |roots[j]| >= 3 && KeepsVolume(fold, roots[j])
    ensures var keys, selected := Keys(fold, roots), Keys(fold, result);
            && Partitions(selected, keys) && Antichain(selected) && InListedOrder(selected, keys)
            && SelectsEligible(fold, volumes, selected, keys)
    ensures forall i :: 0 <= i < |result| ==> SpelledLast(fold, roots, result[i])
    ensures forall i :: 0 <= i < |result| && Key(fold, result[i]) !in Keys(fold, roots) ==>
              HasTwoListedEntries(fold, volumes, Key(fold, result[i]), Keys(fold, roots))
  {
    hide Key, IsUnder, Separators, Antichain, PlacedInOrder, InListedOrder;
    hide IsCandidate, IsEligible, IsCovered, Partitions, SelectsEligible, DisplaysFit, Spellings, SpelledLast;
    hide Locate, HasTwoListedEntries, KeepsVolume;
    var keys := Keys(fold, roots);
    if roots == [] {
      NoRoots(fold, volumes);
      return [];
    }
    var displays, order := GatherCandidates(fold, roots);
    var candidates := SortByDepth(displays, order);
    var selected := SelectRoots(fold, volumes, displays, candidates, keys);
    var ordered := SortByPlace(selected, keys);
    AntichainInAnyOrder(selected, ordered);
    SelectsInAnyOrder(fold, volumes, selected, ordered, keys);
    forall i | 0 <= i < |ordered|
      ensures ordered[i] in displays
    {
      assert ordered[i] in multiset(selected);
    }
    result := seq(|ordered|, i requires 0 <= i < |ordered| =>
      if ordered[i] in displays then displays[ordered[i]] else []);
    forall i | 0 <= i < |ordered|
      ensures Keys(fold, result)[i] == ordered[i]
    {
      DisplayFolds(fold, displays, keys, ordered[i]);
    }
    assert Keys(fold, result) == ordered;
    OrderIsStrict(fold, volumes, ordered, keys);
    PartitionsIs(fold, volumes, ordered, keys);
    SpellingsAreLast(fold, roots);
    SelectedMean(fold, volumes, ordered, keys);
  }

  lemma SelectedMean(fold: string -> string, volumes: map<string, Dir>, selected: seq<Path>, keys: seq<Path>)
    requires SelectsEligible(fold, volumes, selected, keys)
    ensures forall i :: 0 <= i < |selected| && selected[i] !in keys ==>
              HasTwoListedEntries(fold, volumes, selected[i], keys)
  {
    hide IsCandidate, IsEligible, HasTwoListedEntries, IsCovered;
    forall i | 0 <= i < |selected| && selected[i] !in keys
      ensures HasTwoListedEntries(fold, volumes, selected[i], keys)
    {
      UnlistedRootMeans(fold, volumes, selected[i], keys);
    }
  }

  lemma NoRoots(fold: string -> string, volumes: map<string, Dir>)
    ensures Partitions([], []) && Antichain([]) && InListedOrder([], []) && Keys(fold, []) == []
    ensures SelectsEligible(fold, volumes, [], [])
  {
  }

  lemma PartitionsIs(fold: string -> string, volumes: map<string, Dir>, selected: seq<Path>, keys: seq<Path>)
    requires Antichain(selected) && SelectsEligible(fold, volumes, selected, keys)
    ensures Partitions(selected, keys)
  {
    forall j | 0 <= j < |keys|
      ensures IsCovered(keys[j], selected)
    {
      assert IsCandidate(keys[j], keys) && IsEligible(fold, volumes, keys[j], keys);
    }
    forall j, a, b | 0 <= j < |keys| && 0 <= a < |selected| && 0 <= b < |selected|
                     && IsUnder(keys[j], selected[a]) && IsUnder(keys[j], selected[b])
      ensures a == b
    {
      UnderOnlyOne(selected, keys[j], a, b);
    }
  }
}
