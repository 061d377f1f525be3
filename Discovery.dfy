/** The order in which a recursive listing discovers a directory tree when no
    call fails: at each level the files, then the subdirectories other than
    "." and "..", then the traversal of each of those subdirectories in turn. */
module Discovery {
  import opened Remote

  /** The entries a traversal of `p` appends, on a server where nothing
      fails; none of them has been deleted or moved away. */
  function Walk(fs: FileSystem, p: string): (r: seq<Entry>)
    requires fs.Valid()
    ensures forall e {:trigger e in r} :: e in r ==> e.fullName !in fs.removed
    decreases fs.Rank(p), 1
  {
    if !fs.DirectoryExists(p) then []
    else
      var level := fs.Visible(p);
      SubdirsBelow(fs, p);
      Files(level) + Subdirs(level) + WalkAll(fs, Subdirs(level), p)
  }

  /** The traversals of the subdirectories `ds` of `parent`, one after another. */
  function WalkAll(fs: FileSystem, ds: seq<Entry>, parent: string): (r: seq<Entry>)
    requires fs.Valid()
    requires forall d {:trigger d in ds} {:trigger fs.Rank(d.fullName)} :: d in ds ==> fs.Rank(d.fullName) < fs.Rank(parent)
    ensures forall e {:trigger e in r} :: e in r ==> e.fullName !in fs.removed
    decreases fs.Rank(parent), 0, |ds|
  {
    if ds == [] then []
    else WalkAll(fs, ds[..|ds| - 1], parent) + Walk(fs, ds[|ds| - 1].fullName)
  }

  /** Every subdirectory a listing of `p` shows ranks below `p`. */
  lemma SubdirsBelow(fs: FileSystem, p: string)
    requires fs.Valid()
    ensures forall d {:trigger d in Subdirs(fs.Visible(p))} :: d in Subdirs(fs.Visible(p)) ==> fs.Rank(d.fullName) < fs.Rank(p)
  {
  }

  /** What a listing of directory `q` itself contributes: its files, then its
      subdirectories; nothing when `q` cannot be listed. */
  function Level(fs: FileSystem, q: string): (r: seq<Entry>)
  {
    if fs.DirectoryExists(q) then Files(fs.Visible(q)) + Subdirs(fs.Visible(q)) else []
  }

  /** A traversal starts with the level of its root, and within that level
      every file comes before every directory. */
  lemma WalkStartsWithLevel(fs: FileSystem, p: string)
    requires fs.Valid()
    ensures |Level(fs, p)| <= |Walk(fs, p)| && Walk(fs, p)[..|Level(fs, p)|] == Level(fs, p)
    ensures forall i, j :: 0 <= i < j < |Level(fs, p)| && Level(fs, p)[i].isDirectory ==> Level(fs, p)[j].isDirectory
  {
    var lv := Level(fs, p);
    if fs.DirectoryExists(p) {
      var f, s := Files(fs.Visible(p)), Subdirs(fs.Visible(p));
      SubdirsBelow(fs, p);
      assert Walk(fs, p) == lv + WalkAll(fs, s, p);
      forall i | 0 <= i < |lv| ensures lv[i].isDirectory <==> i >= |f| {
        if i < |f| {
          assert lv[i] == f[i] && f[i] in f;
        } else {
          assert lv[i] == s[i - |f|] && s[i - |f|] in s;
        }
      }
    }
  }

  /** If `d` is a directory, every entry its own listing shows is in `rest`. */
  ghost predicate LevelWithin(fs: FileSystem, d: Entry, rest: seq<Entry>)
  {
    d.isDirectory ==>
      forall c {:trigger c in Level(fs, d.fullName)} :: c in Level(fs, d.fullName) ==> c in rest
  }

  /** Entry `i` of `w`, if it is a directory, is followed somewhere later in
      `w` by every entry its own listing shows. */
  ghost predicate FollowedByLevel(fs: FileSystem, w: seq<Entry>, i: int)
    requires 0 <= i < |w|
  {
    LevelWithin(fs, w[i], w[i + 1..])
  }

  /** Shallow before deep: every directory in `w` comes before every entry
      of its own listing. */
  ghost predicate ShallowFirst(fs: FileSystem, w: seq<Entry>)
  {
    forall i :: 0 <= i < |w| ==> FollowedByLevel(fs, w, i)
  }

  lemma LevelWithinGrows(fs: FileSystem, d: Entry, x: seq<Entry>, y: seq<Entry>)
    ensures LevelWithin(fs, d, x) ==> LevelWithin(fs, d, x + y)
    ensures LevelWithin(fs, d, y) ==> LevelWithin(fs, d, x + y)
  {
  }

  /** Entries whose listings all lie in `rest`, put in front of a
      shallow-first `rest`, keep the whole shallow-first. */
  lemma PrefixShallowFirst(fs: FileSystem, pre: seq<Entry>, rest: seq<Entry>)
    requires forall i :: 0 <= i < |pre| ==> LevelWithin(fs, pre[i], rest)
    requires ShallowFirst(fs, rest)
    ensures ShallowFirst(fs, pre + rest)
  {
    var w := pre + rest;
    forall i | 0 <= i < |w| ensures FollowedByLevel(fs, w, i) {
      if i < |pre| {
        assert w[i] == pre[i];
        LevelWithinGrows(fs, w[i], pre[i + 1..], rest);
        assert w[i + 1..] == pre[i + 1..] + rest;
      } else {
        var j := i - |pre|;
        assert FollowedByLevel(fs, rest, j);
        assert w[i] == rest[j];
        assert w[i + 1..] == rest[j + 1..];
      }
    }
  }

  lemma ShallowFirstAppend(fs: FileSystem, a: seq<Entry>, b: seq<Entry>)
    requires ShallowFirst(fs, a) && ShallowFirst(fs, b)
    ensures ShallowFirst(fs, a + b)
  {
    var w := a + b;
    forall i | 0 <= i < |w| ensures FollowedByLevel(fs, w, i) {
      if i < |a| {
        assert FollowedByLevel(fs, a, i);
        assert w[i] == a[i];
        LevelWithinGrows(fs, w[i], a[i + 1..], b);
        assert w[i + 1..] == a[i + 1..] + b;
      } else {
        var j := i - |a|;
        assert FollowedByLevel(fs, b, j);
        assert w[i] == b[j];
        assert w[i + 1..] == b[j + 1..];
      }
    }
  }

  /** The listing of directory `d` is among the entries its traversal appends. */
  lemma {:induction false} LevelInWalk(fs: FileSystem, d: Entry)
    requires fs.Valid()
    ensures LevelWithin(fs, d, Walk(fs, d.fullName))
  {
    var p := d.fullName;
    if fs.DirectoryExists(p) {
      var level := fs.Visible(p);
      SubdirsBelow(fs, p);
      assert Walk(fs, p) == Level(fs, p) + WalkAll(fs, Subdirs(level), p);
    }
  }

  /** The traversal of each subdirectory in `ds` is part of the traversals
      of `ds`. */
  lemma {:induction false} WalkInWalkAll(fs: FileSystem, ds: seq<Entry>, parent: string, k: nat)
    requires fs.Valid()
    requires forall d {:trigger d in ds} {:trigger fs.Rank(d.fullName)} :: d in ds ==> fs.Rank(d.fullName) < fs.Rank(parent)
    requires k < |ds|
    ensures forall c {:trigger c in Walk(fs, ds[k].fullName)} :: c in Walk(fs, ds[k].fullName) ==> c in WalkAll(fs, ds, parent)
    decreases |ds|
  {
    var n := |ds| - 1;
    assert WalkAll(fs, ds, parent) == WalkAll(fs, ds[..n], parent) + Walk(fs, ds[n].fullName);
    if k < n {
      assert ds[..n][k] == ds[k];
      WalkInWalkAll(fs, ds[..n], parent, k);
    }
  }

  /** The listing of each subdirectory in `ds` opens its own traversal, so it
      is among the entries the traversals of `ds` append. */
  lemma LevelInWalkAll(fs: FileSystem, ds: seq<Entry>, parent: string, k: nat)
    requires fs.Valid()
    requires forall d {:trigger d in ds} {:trigger fs.Rank(d.fullName)} :: d in ds ==> fs.Rank(d.fullName) < fs.Rank(parent)
    requires k < |ds|
    ensures LevelWithin(fs, ds[k], WalkAll(fs, ds, parent))
  {
    LevelInWalk(fs, ds[k]);
    WalkInWalkAll(fs, ds, parent, k);
  }

  /** Files, followed by directories whose listings all lie in `rest`: the
      listing of every one of those entries lies in `rest`. */
  lemma {:induction false} LevelsWithin(fs: FileSystem, f: seq<Entry>, s: seq<Entry>, rest: seq<Entry>)
    requires forall e {:trigger e in f} :: e in f ==> !e.isDirectory
    requires forall k :: 0 <= k < |s| ==> LevelWithin(fs, s[k], rest)
    ensures forall i :: 0 <= i < |f + s| ==> LevelWithin(fs, (f + s)[i], rest)
  {
    forall i | 0 <= i < |f + s| ensures LevelWithin(fs, (f + s)[i], rest) {
      if i < |f| {
        assert (f + s)[i] == f[i] && f[i] in f;
      } else {
        assert (f + s)[i] == s[i - |f|];
      }
    }
  }

  /** Every directory a traversal appends comes before every entry of its own
      listing, which the traversal appends too. */
  lemma {:induction false} WalkShallowFirst(fs: FileSystem, p: string)
    requires fs.Valid()
    ensures ShallowFirst(fs, Walk(fs, p))
    decreases fs.Rank(p), 1
  {
    if fs.DirectoryExists(p) {
      var level := fs.Visible(p);
      SubdirsBelow(fs, p);
      var f, s := Files(level), Subdirs(level);
      var rest := WalkAll(fs, s, p);
      assert Walk(fs, p) == (f + s) + rest;
      WalkAllShallowFirst(fs, s, p);
      forall k | 0 <= k < |s| ensures LevelWithin(fs, s[k], rest) {
        LevelInWalkAll(fs, s, p, k);
      }
      LevelsWithin(fs, f, s, rest);
      PrefixShallowFirst(fs, f + s, rest);
    }
  }

  lemma {:induction false} WalkAllShallowFirst(fs: FileSystem, ds: seq<Entry>, parent: string)
    requires fs.Valid()
    requires forall d {:trigger d in ds} {:trigger fs.Rank(d.fullName)} :: d in ds ==> fs.Rank(d.fullName) < fs.Rank(parent)
    ensures ShallowFirst(fs, WalkAll(fs, ds, parent))
    decreases fs.Rank(parent), 0, |ds|
  {
    if ds != [] {
      var n := |ds| - 1;
      WalkAllShallowFirst(fs, ds[..n], parent);
      WalkShallowFirst(fs, ds[n].fullName);
      ShallowFirstAppend(fs, WalkAll(fs, ds[..n], parent), Walk(fs, ds[n].fullName));
    }
  }

  /** No entry named "." or ".." is ever appended, and every directory
      appended ranks strictly below the root of the traversal, so in
      particular it is never the root itself. */
  lemma {:induction false} WalkEntries(fs: FileSystem, p: string)
    requires fs.Valid()
    ensures forall e {:trigger e in Walk(fs, p)} :: e in Walk(fs, p) ==> !IsSentinel(e.name)
    ensures forall e {:trigger e in Walk(fs, p)} :: e in Walk(fs, p) && e.isDirectory ==> fs.Rank(e.fullName) < fs.Rank(p)
    decreases fs.Rank(p), 1
  {
    if fs.DirectoryExists(p) {
      SubdirsBelow(fs, p);
      var s := Subdirs(fs.Visible(p));
      WalkAllEntries(fs, s, p);
    }
  }

  lemma {:induction false} WalkAllEntries(fs: FileSystem, ds: seq<Entry>, parent: string)
    requires fs.Valid()
    requires forall d {:trigger d in ds} {:trigger fs.Rank(d.fullName)} :: d in ds ==> fs.Rank(d.fullName) < fs.Rank(parent)
    ensures forall e {:trigger e in WalkAll(fs, ds, parent)} :: e in WalkAll(fs, ds, parent) ==> !IsSentinel(e.name)
    ensures forall e {:trigger e in WalkAll(fs, ds, parent)} :: e in WalkAll(fs, ds, parent) && e.isDirectory ==>
              fs.Rank(e.fullName) < fs.Rank(parent)
    decreases fs.Rank(parent), 0, |ds|
  {
    if ds != [] {
      var n := |ds| - 1;
      WalkAllEntries(fs, ds[..n], parent);
      WalkEntries(fs, ds[n].fullName);
    }
  }

  /** No entry occurs twice in `s`. */
  predicate Distinct(s: seq<Entry>)
  {
    forall i, j :: 0 <= i < j < |s| ==> s[i] != s[j]
  }

  /** The server's listings form a tree: no listing shows an entry twice,
      and a full name identifies both the entry and the one directory that
      lists it. */
  ghost predicate Tree(fs: FileSystem)
  {
    (forall p {:trigger fs.listings[p]} :: p in fs.listings ==> Distinct(fs.listings[p])) &&
    forall p, q, a, b {:trigger a in fs.listings[p], b in fs.listings[q]} ::
      p in fs.listings && q in fs.listings && a in fs.listings[p] && b in fs.listings[q] && a.fullName == b.fullName ==>
        p == q && a == b
  }

  lemma DistinctAppend(a: seq<Entry>, b: seq<Entry>)
    requires Distinct(a) && Distinct(b)
    requires forall e {:trigger e in a} :: e in a ==> e !in b
    ensures Distinct(a + b)
  {
    var w := a + b;
    forall i, j | 0 <= i < j < |w| ensures w[i] != w[j] {
      if j < |a| {
        assert w[i] == a[i] && w[j] == a[j];
      } else if i >= |a| {
        assert w[i] == b[i - |a|] && w[j] == b[j - |a|];
      } else {
        assert w[i] == a[i] && a[i] in a;
        assert w[j] == b[j - |a|] && w[j] in b;
      }
    }
  }

  /** The last entry of a sequence without repeats is not in the rest. */
  lemma DistinctLast(s: seq<Entry>)
    requires Distinct(s) && s != []
    ensures Distinct(s[..|s| - 1]) && s[|s| - 1] !in s[..|s| - 1]
  {
    var n := |s| - 1;
    forall k | 0 <= k < n ensures s[..n][k] != s[n] {
      assert s[..n][k] == s[k];
    }
  }

  lemma {:induction false} DistinctUnremoved(es: seq<Entry>, removed: set<string>)
    requires Distinct(es)
    ensures Distinct(Unremoved(es, removed))
    decreases |es|
  {
    if es != [] {
      var n := |es| - 1;
      DistinctLast(es);
      DistinctUnremoved(es[..n], removed);
      DistinctAppend(Unremoved(es[..n], removed), if es[n].fullName in removed then [] else [es[n]]);
    }
  }

  lemma {:induction false} DistinctFiles(es: seq<Entry>)
    requires Distinct(es)
    ensures Distinct(Files(es))
    decreases |es|
  {
    if es != [] {
      var n := |es| - 1;
      DistinctLast(es);
      DistinctFiles(es[..n]);
      DistinctAppend(Files(es[..n]), if es[n].isDirectory then [] else [es[n]]);
    }
  }

  lemma {:induction false} DistinctSubdirs(es: seq<Entry>)
    requires Distinct(es)
    ensures Distinct(Subdirs(es))
    decreases |es|
  {
    if es != [] {
      var n := |es| - 1;
      DistinctLast(es);
      DistinctSubdirs(es[..n]);
      DistinctAppend(Subdirs(es[..n]), if es[n].isDirectory && !IsSentinel(es[n].name) then [es[n]] else []);
    }
  }

  /** On a tree, the level of a directory shows no entry twice. */
  lemma DistinctLevel(fs: FileSystem, p: string)
    requires Tree(fs)
    ensures Distinct(Subdirs(fs.Visible(p)))
    ensures Distinct(Files(fs.Visible(p)) + Subdirs(fs.Visible(p)))
  {
    var v := fs.Visible(p);
    if p in fs.listings {
      assert Distinct(fs.listings[p]);
      DistinctUnremoved(fs.listings[p], fs.removed);
    }
    DistinctFiles(v);
    DistinctSubdirs(v);
    DistinctAppend(Files(v), Subdirs(v));
  }

  /** The directory `z` whose listing shows an entry `e` of a traversal of
      `p`: `p` itself or a directory the traversal found. */
  lemma {:induction false} WalkLister(fs: FileSystem, p: string, e: Entry) returns (z: string)
    requires fs.Valid() && e in Walk(fs, p)
    ensures z in fs.listings && e in fs.listings[z] && fs.Rank(z) <= fs.Rank(p)
    ensures z == p || exists g {:trigger g in Walk(fs, p)} :: g in Walk(fs, p) && g.isDirectory && g.fullName == z
    decreases fs.Rank(p), 1
  {
    var v := fs.Visible(p);
    SubdirsBelow(fs, p);
    var s := Subdirs(v);
    assert Walk(fs, p) == Files(v) + s + WalkAll(fs, s, p);
    if e in Files(v) + s {
      z := p;
    } else {
      z := WalkAllLister(fs, s, p, e);
      if d :| d in s && d.fullName == z {
        assert d in Walk(fs, p);
      } else {
        var g :| g in WalkAll(fs, s, p) && g.isDirectory && g.fullName == z;
        assert g in Walk(fs, p);
      }
    }
  }

  lemma {:induction false} WalkAllLister(fs: FileSystem, ds: seq<Entry>, parent: string, e: Entry) returns (z: string)
    requires fs.Valid()
    requires forall d {:trigger d in ds} {:trigger fs.Rank(d.fullName)} :: d in ds ==> fs.Rank(d.fullName) < fs.Rank(parent)
    requires e in WalkAll(fs, ds, parent)
    ensures z in fs.listings && e in fs.listings[z] && fs.Rank(z) < fs.Rank(parent)
    ensures (exists d {:trigger d in ds} :: d in ds && d.fullName == z) ||
      exists g {:trigger g in WalkAll(fs, ds, parent)} :: g in WalkAll(fs, ds, parent) && g.isDirectory && g.fullName == z
    decreases fs.Rank(parent), 0, |ds|
  {
    var n := |ds| - 1;
    var pre, last := ds[..n], ds[n];
    assert forall d {:trigger d in pre} :: d in pre ==> d in ds;
    assert WalkAll(fs, ds, parent) == WalkAll(fs, pre, parent) + Walk(fs, last.fullName);
    if e in WalkAll(fs, pre, parent) {
      z := WalkAllLister(fs, pre, parent, e);
      if d :| d in pre && d.fullName == z {
        assert d in ds;
      } else {
        var g :| g in WalkAll(fs, pre, parent) && g.isDirectory && g.fullName == z;
        assert g in WalkAll(fs, ds, parent);
      }
    } else {
      assert last in ds;
      z := WalkLister(fs, last.fullName, e);
      if z != last.fullName {
        var g :| g in Walk(fs, last.fullName) && g.isDirectory && g.fullName == z;
        assert g in WalkAll(fs, ds, parent);
        WalkEntries(fs, last.fullName);
      }
    }
  }

  /** An entry found by the traversals of a level is found by the traversal
      of one of its subdirectories. */
  lemma {:induction false} WalkAllFrom(fs: FileSystem, ds: seq<Entry>, parent: string, e: Entry) returns (d: Entry)
    requires fs.Valid()
    requires forall d {:trigger d in ds} {:trigger fs.Rank(d.fullName)} :: d in ds ==> fs.Rank(d.fullName) < fs.Rank(parent)
    requires e in WalkAll(fs, ds, parent)
    ensures d in ds && e in Walk(fs, d.fullName)
    decreases |ds|
  {
    var n := |ds| - 1;
    assert forall d {:trigger d in ds[..n]} :: d in ds[..n] ==> d in ds;
    if e in WalkAll(fs, ds[..n], parent) {
      d := WalkAllFrom(fs, ds[..n], parent, e);
    } else {
      d := ds[n];
    }
  }

  /** On a tree, the traversals of two different subdirectories of `p`
      share no entry: following the unique directory that lists a shared
      entry upwards would reach both. */
  lemma {:induction false} SiblingsDisjoint(fs: FileSystem, p: string, d1: Entry, d2: Entry, e: Entry, x: string)
    requires fs.Valid() && Tree(fs)
    requires d1 in Subdirs(fs.Visible(p)) && d2 in Subdirs(fs.Visible(p))
    requires e in Walk(fs, d1.fullName) && e in Walk(fs, d2.fullName)
    requires x in fs.listings && e in fs.listings[x] && fs.Rank(x) < fs.Rank(p)
    ensures d1 == d2
    decreases fs.Rank(p) - fs.Rank(x)
  {
    SubdirsBelow(fs, p);
    WalkEntries(fs, d1.fullName);
    WalkEntries(fs, d2.fullName);
    var z1 := WalkLister(fs, d1.fullName, e);
    var z2 := WalkLister(fs, d2.fullName, e);
    assert z1 == x && z2 == x;
    if x == d1.fullName && x == d2.fullName {
      assert d1 in fs.listings[p] && d2 in fs.listings[p];
    } else if x == d1.fullName {
      var g2 :| g2 in Walk(fs, d2.fullName) && g2.isDirectory && g2.fullName == x;
      NotListedBy(fs, p, d2, d1, g2);
    } else if x == d2.fullName {
      var g1 :| g1 in Walk(fs, d1.fullName) && g1.isDirectory && g1.fullName == x;
      NotListedBy(fs, p, d1, d2, g1);
    } else {
      var g1 :| g1 in Walk(fs, d1.fullName) && g1.isDirectory && g1.fullName == x;
      var g2 :| g2 in Walk(fs, d2.fullName) && g2.isDirectory && g2.fullName == x;
      var y1 := WalkLister(fs, d1.fullName, g1);
      var y2 := WalkLister(fs, d2.fullName, g2);
      assert y1 == y2 && g1 == g2;
      assert fs.Rank(x) < fs.Rank(y1);
      SiblingsDisjoint(fs, p, d1, d2, g1, y1);
    }
  }

  /** A directory `g` found below the subdirectory `d` of `p` does not
      have the full name of a subdirectory `c` that `p` itself lists. */
  lemma NotListedBy(fs: FileSystem, p: string, d: Entry, c: Entry, g: Entry)
    requires fs.Valid() && Tree(fs)
    requires d in Subdirs(fs.Visible(p)) && c in Subdirs(fs.Visible(p))
    requires g in Walk(fs, d.fullName)
    ensures g.fullName != c.fullName
  {
    SubdirsBelow(fs, p);
    var y := WalkLister(fs, d.fullName, g);
    assert c in fs.listings[p];
  }

  /** On a tree, a traversal finds no entry twice. */
  lemma {:induction false} WalkDistinct(fs: FileSystem, p: string)
    requires fs.Valid() && Tree(fs)
    ensures Distinct(Walk(fs, p))
    decreases fs.Rank(p), 1
  {
    if fs.DirectoryExists(p) {
      var v := fs.Visible(p);
      var lv, s := Files(v) + Subdirs(v), Subdirs(v);
      SubdirsBelow(fs, p);
      DistinctLevel(fs, p);
      WalkAllDistinct(fs, s, p);
      forall e | e in WalkAll(fs, s, p) ensures e !in lv {
        var z := WalkAllLister(fs, s, p, e);
      }
      DistinctAppend(lv, WalkAll(fs, s, p));
    }
  }

  lemma {:induction false} WalkAllDistinct(fs: FileSystem, ds: seq<Entry>, parent: string)
    requires fs.Valid() && Tree(fs) && Distinct(ds)
    requires forall d {:trigger d in ds} :: d in ds ==> d in Subdirs(fs.Visible(parent))
    requires forall d {:trigger d in ds} {:trigger fs.Rank(d.fullName)} :: d in ds ==> fs.Rank(d.fullName) < fs.Rank(parent)
    ensures Distinct(WalkAll(fs, ds, parent))
    decreases fs.Rank(parent), 0, |ds|
  {
    if ds != [] {
      var n := |ds| - 1;
      var pre, last := ds[..n], ds[n];
      DistinctLast(ds);
      assert forall d {:trigger d in pre} :: d in pre ==> d in ds;
      assert last in ds;
      WalkAllDistinct(fs, pre, parent);
      WalkDistinct(fs, last.fullName);
      forall e | e in WalkAll(fs, pre, parent) ensures e !in Walk(fs, last.fullName) {
        if e in Walk(fs, last.fullName) {
          var d := WalkAllFrom(fs, pre, parent, e);
          var x := WalkLister(fs, last.fullName, e);
          SiblingsDisjoint(fs, parent, d, last, e, x);
        }
      }
      DistinctAppend(WalkAll(fs, pre, parent), Walk(fs, last.fullName));
    }
  }

  /** On a server whose listings form a tree, a traversal returns every
      file and directory below its root exactly once: no entry twice, the
      root's own level, and the level of every directory it finds. */
  lemma WalkExactlyOnce(fs: FileSystem, p: string)
    requires fs.Valid() && Tree(fs)
    ensures Distinct(Walk(fs, p))
    ensures forall c {:trigger c in Level(fs, p)} :: c in Level(fs, p) ==> c in Walk(fs, p)
    ensures forall g, c {:trigger c in Level(fs, g.fullName), g in Walk(fs, p)} ::
      g in Walk(fs, p) && g.isDirectory && c in Level(fs, g.fullName) ==> c in Walk(fs, p)
  {
    WalkDistinct(fs, p);
    WalkStartsWithLevel(fs, p);
    WalkShallowFirst(fs, p);
    var w := Walk(fs, p);
    forall c | c in Level(fs, p) ensures c in w {
      var k :| 0 <= k < |Level(fs, p)| && Level(fs, p)[k] == c;
      assert w[..|Level(fs, p)|][k] == c;
    }
    forall g, c | g in w && g.isDirectory && c in Level(fs, g.fullName) ensures c in w {
      var i :| 0 <= i < |w| && w[i] == g;
      assert FollowedByLevel(fs, w, i);
      assert c in w[i + 1..];
    }
  }
}
