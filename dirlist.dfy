/**
 * `get_dirlist` of kupfer/utils.py: the paths below a folder, down to a
 * depth bound, that pass an include/exclude filter.
 *
 * The file system is an abstract tree: a `Dir` holds its subdirectories and
 * the names of its files, in the order a directory listing returns them. A
 * path is the sequence of its components, so `path.join(dirname, name)` is
 * `dirname + [name]`, and since `os.walk` only ever yields `folder` and paths
 * joined below it, `path.samefile(head, folder)` is path equality. `os.walk`
 * (top-down, not following links) is the recursive method `Walk`; the body of
 * the `for` loop over what it yields is `VisitDir`.
 */
module DirList {
  import opened Wrappers

  type Path = seq<string>

  /** A directory: its name, its subdirectories and its files, in listing order. */
  datatype Dir = Dir(name: string, subdirs: seq<Dir>, files: seq<string>)

  /** The `include` and `exclude` arguments: predicates on a file name, or `None`. */
  datatype Filter = Filter(includes: Option<string -> bool>, excludes: Option<string -> bool>)

  /** The inner `include_file`: passes `include` when there is one and fails `exclude` when there is one. */
  predicate IncludeFile(f: Filter, name: string): (b: bool)
    // with neither filter every name is accepted
    ensures f.includes.None? && f.excludes.None? ==> b
    // a name that `include` refuses or `exclude` matches is rejected, whatever the other filter says
    ensures f.includes.Some? && !f.includes.value(name) ==> !b
    ensures f.excludes.Some? && f.excludes.value(name) ==> !b
  {
    (f.includes.None? || f.includes.value(name)) && (f.excludes.None? || !f.excludes.value(name))
  }

  function Accepts(f: Filter): string -> bool
  {
    name => IncludeFile(f, name)
  }

  function Rejects(f: Filter): string -> bool
  {
    name => !IncludeFile(f, name)
  }

  function Elements(s: seq<string>): set<string>
  {
    set x | x in s
  }

  function NotIn(names: set<string>): string -> bool
  {
    name => name !in names
  }

  /*
   * Sequences of names.
   */

  /** The names in `s` that satisfy `p`, in their order in `s`. */
  function Keep(s: seq<string>, p: string -> bool): (r: seq<string>)
    ensures |r| <= |s|
  {
    if s == [] then [] else (if p(s[0]) then [s[0]] else []) + Keep(s[1..], p)
  }

  /** A name is kept exactly when it is in `s` and satisfies `p`. */
  lemma {:induction false} KeepMember(s: seq<string>, p: string -> bool)
    ensures forall x :: x in Keep(s, p) <==> x in s && p(x)
  {
    if s != [] {
      KeepMember(s[1..], p);
      assert s == [s[0]] + s[1..];
    }
  }

  /** Filtering a sequence one name longer appends at most that name. */
  lemma {:induction false} KeepSnoc(s: seq<string>, x: string, p: string -> bool)
    ensures Keep(s + [x], p) == Keep(s, p) + (if p(x) then [x] else [])
  {
    if s == [] {
      assert [x][1..] == [];
    } else {
      assert (s + [x])[1..] == s[1..] + [x];
      KeepSnoc(s[1..], x, p);
    }
  }

  /** A filter that holds for every name of `s` keeps all of `s`. */
  lemma {:induction false} KeepAll(s: seq<string>, p: string -> bool)
    requires forall x | x in s :: p(x)
    ensures Keep(s, p) == s
  {
    if s != [] {
      KeepAll(s[1..], p);
      assert s == [s[0]] + s[1..];
    }
  }

  /** Filters that agree on the names of `s` keep the same names of `s`. */
  lemma {:induction false} KeepAgree(s: seq<string>, p: string -> bool, q: string -> bool)
    requires forall x | x in s :: p(x) == q(x)
    ensures Keep(s, p) == Keep(s, q)
  {
    if s != [] {
      KeepAgree(s[1..], p, q);
    }
  }

  predicate Distinct(s: seq<string>)
  {
    forall i, j | 0 <= i < j < |s| :: s[i] != s[j]
  }

  /** A suffix of distinct names is distinct and does not hold the name just before it. */
  lemma DistinctSuffix(s: seq<string>, j: int)
    requires Distinct(s) && 0 <= j < |s|
    ensures Distinct(s[j + 1..]) && s[j] !in s[j + 1..]
  {
  }

  /** Filtering keeps distinct names distinct. */
  lemma {:induction false} KeepDistinct(s: seq<string>, p: string -> bool)
    requires Distinct(s)
    ensures Distinct(Keep(s, p))
  {
    if s != [] {
      DistinctSuffix(s, 0);
      KeepDistinct(s[1..], p);
      var t := Keep(s[1..], p);
      KeepMember(s[1..], p);
      if p(s[0]) {
        var r := [s[0]] + t;
        assert Keep(s, p) == r;
        forall i, j | 0 <= i < j < |r|
          ensures r[i] != r[j]
        {
          assert r[j] == t[j - 1] && r[j] in t;
          if i > 0 {
            assert r[i] == t[i - 1];
          }
        }
      } else {
        assert Keep(s, p) == t;
      }
    }
  }

  /** `list.remove(x)`: drops the first occurrence of `x` (the list must hold it, or it raises ValueError). */
  function RemoveFirst(s: seq<string>, x: string): (r: seq<string>)
    requires x in s
    ensures |r| == |s| - 1
    ensures multiset(r) == multiset(s) - multiset{x}
  {
    assert s == [s[0]] + s[1..];
    if s[0] == x then s[1..] else [s[0]] + RemoveFirst(s[1..], x)
  }

  /** The first occurrence of `x` in `s`. */
  lemma {:induction false} FirstIndex(s: seq<string>, x: string) returns (i: nat)
    requires x in s
    ensures i < |s| && s[i] == x && x !in s[..i]
  {
    if s[0] == x {
      i := 0;
    } else {
      assert x in s[1..] by { assert s == [s[0]] + s[1..]; }
      var k := FirstIndex(s[1..], x);
      i := k + 1;
      assert s[..i] == [s[0]] + s[1..][..k];
    }
  }

  /** Removing `x` when its first occurrence is at `i` splices `s` around `i`. */
  lemma {:induction false} RemoveFirstAt(s: seq<string>, x: string, i: nat)
    requires i < |s| && s[i] == x && x !in s[..i]
    ensures RemoveFirst(s, x) == s[..i] + s[i + 1..]
  {
    assert x in s;
    if i > 0 {
      var t := s[1..];
      assert s[0] != x by { assert s[0] == s[..i][0]; }
      assert t[..i - 1] == s[1..i] && s[..i] == [s[0]] + t[..i - 1];
      assert x !in t[..i - 1];
      RemoveFirstAt(t, x, i - 1);
      assert s[i + 1..] == t[i..];
      ConcatAssoc([s[0]], t[..i - 1], t[i..]);
    }
  }

  /**
   * `list.remove(x)` takes out the first occurrence of `x`, at index `i`,
   * and keeps the names before and after it in their order.
   */
  lemma RemoveFirstShape(s: seq<string>, x: string) returns (i: nat)
    requires x in s
    ensures i < |s| && s[i] == x && x !in s[..i]
    ensures RemoveFirst(s, x) == s[..i] + s[i + 1..]
  {
    i := FirstIndex(s, x);
    RemoveFirstAt(s, x, i);
  }

  /**
   * In a list of distinct names from which the names in `gone` were already
   * removed, removing one more name `x` leaves the names outside `gone + {x}`.
   */
  lemma {:induction false} RemoveFirstKeep(s: seq<string>, gone: set<string>, x: string)
    requires Distinct(s) && x in s && x !in gone
    ensures x in Keep(s, NotIn(gone))
    ensures RemoveFirst(Keep(s, NotIn(gone)), x) == Keep(s, NotIn(gone + {x}))
  {
    DistinctSuffix(s, 0);
    var rest := Keep(s[1..], NotIn(gone));
    var rest' := Keep(s[1..], NotIn(gone + {x}));
    if s[0] == x {
      assert Keep(s, NotIn(gone)) == [x] + rest;
      KeepAgree(s[1..], NotIn(gone), NotIn(gone + {x}));
      assert Keep(s, NotIn(gone + {x})) == rest';
    } else {
      RemoveFirstKeep(s[1..], gone, x);
      if s[0] in gone {
        assert Keep(s, NotIn(gone)) == rest;
        assert Keep(s, NotIn(gone + {x})) == rest';
      } else {
        assert Keep(s, NotIn(gone)) == [s[0]] + rest;
        assert Keep(s, NotIn(gone + {x})) == [s[0]] + rest';
        assert ([s[0]] + rest)[1..] == rest;
      }
    }
  }

  /*
   * The directory tree.
   */

  function Names(ds: seq<Dir>): (r: seq<string>)
    ensures |r| == |ds| && forall i | 0 <= i < |ds| :: r[i] == ds[i].name
  {
    seq(|ds|, i requires 0 <= i < |ds| => ds[i].name)
  }

  /**
   * What a real file system guarantees: the entries of one directory have
   * distinct names, and no name is both a subdirectory and a file.
   */
  ghost predicate WellFormed(d: Dir)
  {
    && Distinct(Names(d.subdirs))
    && Distinct(d.files)
    && (forall n | n in d.files :: n !in Names(d.subdirs))
    && (forall i | 0 <= i < |d.subdirs| :: WellFormed(d.subdirs[i]))
  }

  /** The position of the subdirectory named `n`: the first one, as a lookup by name finds it. */
  function ChildIndex(ds: seq<Dir>, n: string): (i: nat)
    requires n in Names(ds)
    ensures i < |ds| && ds[i].name == n
    ensures forall j | 0 <= j < i :: ds[j].name != n
  {
    if ds[0].name == n then 0
    else
      assert n in Names(ds[1..]) by {
        var k :| 0 <= k < |ds| && Names(ds)[k] == n;
        assert Names(ds[1..])[k - 1] == n;
      }
      1 + ChildIndex(ds[1..], n)
  }

  /** The subdirectory of `d` named `n`. */
  function Child(d: Dir, n: string): Dir
    requires n in Names(d.subdirs)
  {
    d.subdirs[ChildIndex(d.subdirs, n)]
  }

  /** `rel` leads from `d` to one of its entries, directory or file, at any depth. */
  ghost predicate IsEntry(d: Dir, rel: Path)
    decreases |rel|
  {
    if |rel| == 0 then false
    else if |rel| == 1 then rel[0] in Names(d.subdirs) || rel[0] in d.files
    else rel[0] in Names(d.subdirs) && IsEntry(Child(d, rel[0]), rel[1..])
  }

  /** `rel` leads from `d` to `d` itself or to one of the directories below it. */
  ghost predicate IsDirPath(d: Dir, rel: Path)
    decreases |rel|
  {
    rel == [] || (rel[0] in Names(d.subdirs) && IsDirPath(Child(d, rel[0]), rel[1..]))
  }

  /** Every component of `rel` passes the filter. */
  ghost predicate AllAccepted(rel: Path, f: Filter)
  {
    forall i | 0 <= i < |rel| :: IncludeFile(f, rel[i])
  }

  /** `p` is `dirname` joined with `rel`. */
  ghost predicate Below(p: Path, dirname: Path)
  {
    |dirname| <= |p| && p[..|dirname|] == dirname
  }

  /*
   * What get_dirlist returns, and which directories the walk visits.
   */

  /** `path.join(dirname, name)` for each name, in order. */
  function Join(dirname: Path, names: seq<string>): (r: seq<Path>)
    ensures |r| == |names| && forall i | 0 <= i < |names| :: r[i] == dirname + [names[i]]
  {
    seq(|names|, i requires 0 <= i < |names| => dirname + [names[i]])
  }

  lemma JoinSnoc(dirname: Path, names: seq<string>, x: string)
    ensures Join(dirname, names + [x]) == Join(dirname, names) + [dirname + [x]]
  {
  }

  /** The paths one visit of `dirname` appends: accepted subdirectories first, then accepted files. */
  function DirEntries(dirname: Path, d: Dir, f: Filter): seq<Path>
  {
    Join(dirname, Keep(Names(d.subdirs), Accepts(f))) + Join(dirname, Keep(d.files, Accepts(f)))
  }

  /**
   * The paths appended while the walk is at `dirname`, the directory `d`, and
   * below it, in order: `dirname`'s own entries, then the listing of each
   * accepted subdirectory in turn. A directory more than `depth` levels below
   * `folder` contributes nothing.
   */
  function Listing(folder: Path, dirname: Path, d: Dir, depth: int, f: Filter): seq<Path>
    decreases d, 1
  {
    if |dirname| - |folder| > depth then []
    else
      KeepMember(Names(d.subdirs), Accepts(f));
      DirEntries(dirname, d, f) + SubListings(folder, dirname, d, Keep(Names(d.subdirs), Accepts(f)), depth, f)
  }

  /** The listings of the subdirectories of `d` named in `names`, in that order. */
  function SubListings(folder: Path, dirname: Path, d: Dir, names: seq<string>, depth: int, f: Filter): seq<Path>
    requires forall n | n in names :: n in Names(d.subdirs)
    decreases d, 0, |names|
  {
    if names == [] then []
    else
      var n := names[|names| - 1];
      SubListings(folder, dirname, d, names[..|names| - 1], depth, f)
        + Listing(folder, dirname + [n], d.subdirs[ChildIndex(d.subdirs, n)], depth, f)
  }

  /** The directories the walk yields from `dirname` down, in order. */
  function Visited(folder: Path, dirname: Path, d: Dir, depth: int, f: Filter): seq<Path>
    decreases d, 1
  {
    [dirname] +
    if |dirname| - |folder| > depth then []
    else
      KeepMember(Names(d.subdirs), Accepts(f));
      SubVisited(folder, dirname, d, Keep(Names(d.subdirs), Accepts(f)), depth, f)
  }

  function SubVisited(folder: Path, dirname: Path, d: Dir, names: seq<string>, depth: int, f: Filter): seq<Path>
    requires forall n | n in names :: n in Names(d.subdirs)
    decreases d, 0, |names|
  {
    if names == [] then []
    else
      var n := names[|names| - 1];
      SubVisited(folder, dirname, d, names[..|names| - 1], depth, f)
        + Visited(folder, dirname + [n], d.subdirs[ChildIndex(d.subdirs, n)], depth, f)
  }

  /*
   * What the listing holds.
   */

  /**
   * `p` is an entry of `d` below `dirname`, every component of it from
   * `dirname` down passes the filter, and it lies at most `depth + 1` levels
   * below `folder`.
   */
  ghost predicate Reaches(folder: Path, dirname: Path, d: Dir, depth: int, f: Filter, p: Path)
  {
    && |dirname| < |p| && p[..|dirname|] == dirname
    && IsEntry(d, p[|dirname|..])
    && AllAccepted(p[|dirname|..], f)
    && |p| - |folder| <= depth + 1
  }

  /**
   * `q` is `dirname` itself, or a directory below it reached through accepted
   * names only and at most `depth + 1` levels below `folder`.
   */
  ghost predicate Walked(folder: Path, dirname: Path, d: Dir, depth: int, f: Filter, q: Path)
  {
    && Below(q, dirname)
    && IsDirPath(d, q[|dirname|..])
    && AllAccepted(q[|dirname|..], f)
    && (|q| == |dirname| || |q| - |folder| <= depth + 1)
  }

  lemma JoinMember(dirname: Path, names: seq<string>, p: Path)
    ensures p in Join(dirname, names) <==> |p| == |dirname| + 1 && p[..|dirname|] == dirname && p[|dirname|] in names
  {
    if |p| == |dirname| + 1 && p[..|dirname|] == dirname && p[|dirname|] in names {
      var i :| 0 <= i < |names| && names[i] == p[|dirname|];
      assert Join(dirname, names)[i] == p;
    }
  }

  lemma {:induction false} SubListingsMember(folder: Path, dirname: Path, d: Dir, names: seq<string>, depth: int, f: Filter, p: Path)
    requires forall n | n in names :: n in Names(d.subdirs)
    ensures p in SubListings(folder, dirname, d, names, depth, f)
        <==> exists n | n in names :: p in Listing(folder, dirname + [n], Child(d, n), depth, f)
    decreases |names|
  {
    if names != [] {
      var init, last := names[..|names| - 1], names[|names| - 1];
      SubListingsMember(folder, dirname, d, init, depth, f, p);
      assert names == init + [last];
    }
  }

  lemma {:induction false} SubVisitedMember(folder: Path, dirname: Path, d: Dir, names: seq<string>, depth: int, f: Filter, q: Path)
    requires forall n | n in names :: n in Names(d.subdirs)
    ensures q in SubVisited(folder, dirname, d, names, depth, f)
        <==> exists n | n in names :: q in Visited(folder, dirname + [n], Child(d, n), depth, f)
    decreases |names|
  {
    if names != [] {
      var init, last := names[..|names| - 1], names[|names| - 1];
      SubVisitedMember(folder, dirname, d, init, depth, f, q);
      assert names == init + [last];
    }
  }

  /** Reaching `p` through the subdirectory `n` of `d` is reaching it from `d` in two or more steps. */
  lemma ReachesThrough(folder: Path, dirname: Path, d: Dir, depth: int, f: Filter, p: Path, n: string)
    requires n in Names(d.subdirs)
    ensures |dirname| + 1 < |p| && p[|dirname|] == n && IncludeFile(f, n) && Reaches(folder, dirname + [n], Child(d, n), depth, f, p)
        <==> Reaches(folder, dirname, d, depth, f, p) && |dirname| + 1 < |p| && p[|dirname|] == n
  {
    if |dirname| + 1 < |p| && p[..|dirname|] == dirname && p[|dirname|] == n {
      var r := p[|dirname|..];
      assert r[0] == n && r[1..] == p[|dirname| + 1..];
      assert p[..|dirname| + 1] == dirname + [n];
      assert AllAccepted(r, f) <==> IncludeFile(f, n) && AllAccepted(r[1..], f) by {
        if IncludeFile(f, n) && AllAccepted(r[1..], f) {
          forall i | 0 <= i < |r| ensures IncludeFile(f, r[i]) {
            if i > 0 {
              assert r[i] == r[1..][i - 1];
            }
          }
        }
        if AllAccepted(r, f) {
          forall i | 0 <= i < |r[1..]| ensures IncludeFile(f, r[1..][i]) {
            assert r[1..][i] == r[i + 1];
          }
        }
      }
    }
    if |dirname| + 1 < |p| && p[..|dirname| + 1] == dirname + [n] {
      assert p[..|dirname|] == (dirname + [n])[..|dirname|];
    }
  }

  /**
   * The listing from `dirname` holds exactly the entries of `d` that are
   * reached through accepted names and lie at most `depth + 1` levels below
   * `folder`.
   */
  lemma {:induction false} ListingIff(folder: Path, dirname: Path, d: Dir, depth: int, f: Filter, p: Path)
    ensures p in Listing(folder, dirname, d, depth, f) <==> Reaches(folder, dirname, d, depth, f, p)
    decreases d
  {
    if |dirname| - |folder| > depth {
      return;
    }
    var kept := Keep(Names(d.subdirs), Accepts(f));
    KeepMember(Names(d.subdirs), Accepts(f));
    KeepMember(d.files, Accepts(f));
    JoinMember(dirname, kept, p);
    JoinMember(dirname, Keep(d.files, Accepts(f)), p);
    SubListingsMember(folder, dirname, d, kept, depth, f, p);
    forall n | n in kept
      ensures p in Listing(folder, dirname + [n], Child(d, n), depth, f) <==> Reaches(folder, dirname + [n], Child(d, n), depth, f, p)
      ensures Reaches(folder, dirname + [n], Child(d, n), depth, f, p) ==> |dirname| + 1 < |p| && p[|dirname|] == n
    {
      ListingIff(folder, dirname + [n], Child(d, n), depth, f, p);
      if Reaches(folder, dirname + [n], Child(d, n), depth, f, p) {
        assert p[|dirname|] == p[..|dirname| + 1][|dirname|];
      }
    }
    if |dirname| + 1 < |p| {
      var n := p[|dirname|];
      if n in Names(d.subdirs) {
        ReachesThrough(folder, dirname, d, depth, f, p, n);
      }
      assert p[|dirname|..][0] == n && p[|dirname|..][1..] == p[|dirname| + 1..];
    } else if |dirname| + 1 == |p| && p[..|dirname|] == dirname {
      assert p[|dirname|..] == [p[|dirname|]];
    }
    if p in SubListings(folder, dirname, d, kept, depth, f) {
      var n :| n in kept && p in Listing(folder, dirname + [n], Child(d, n), depth, f);
      ReachesThrough(folder, dirname, d, depth, f, p, n);
    }
  }

  /** Every component of `r` passes the filter exactly when its first one and all the others do. */
  lemma AllAcceptedCons(r: Path, f: Filter)
    requires r != []
    ensures AllAccepted(r, f) <==> IncludeFile(f, r[0]) && AllAccepted(r[1..], f)
  {
  }

  /** A directory walked from the accepted subdirectory `n` is walked from its parent. */
  lemma WalkedFromChild(folder: Path, dirname: Path, d: Dir, depth: int, f: Filter, q: Path, n: string)
    requires n in Names(d.subdirs) && IncludeFile(f, n) && |dirname| - |folder| <= depth
    requires Walked(folder, dirname + [n], Child(d, n), depth, f, q)
    ensures Walked(folder, dirname, d, depth, f, q) && |dirname| < |q| && q[|dirname|] == n
  {
    assert q[..|dirname|] == (dirname + [n])[..|dirname|];
    assert q[|dirname|] == (dirname + [n])[|dirname|];
    var r := q[|dirname|..];
    assert r[0] == n && r[1..] == q[|dirname| + 1..];
    AllAcceptedCons(r, f);
  }

  /** A directory strictly below `dirname` is walked from the subdirectory its path goes through. */
  lemma WalkedFromParent(folder: Path, dirname: Path, d: Dir, depth: int, f: Filter, q: Path)
    requires Walked(folder, dirname, d, depth, f, q) && |dirname| < |q|
    ensures q[|dirname|] in Names(d.subdirs) && IncludeFile(f, q[|dirname|])
    ensures Walked(folder, dirname + [q[|dirname|]], Child(d, q[|dirname|]), depth, f, q)
  {
    var n := q[|dirname|];
    var r := q[|dirname|..];
    assert r[0] == n && r[1..] == q[|dirname| + 1..];
    assert q[..|dirname| + 1] == dirname + [n];
    AllAcceptedCons(r, f);
  }

  /**
   * The walk from `dirname` yields exactly `dirname` and the directories
   * below it reached through accepted names that lie at most `depth + 1`
   * levels below `folder`.
   */
  lemma {:induction false} VisitedIff(folder: Path, dirname: Path, d: Dir, depth: int, f: Filter, q: Path)
    ensures q in Visited(folder, dirname, d, depth, f) <==> Walked(folder, dirname, d, depth, f, q)
    decreases d, 1
  {
    assert q == dirname ==> q[|dirname|..] == [];
    assert Below(q, dirname) && |q| == |dirname| ==> q == dirname;
    if |dirname| - |folder| <= depth {
      if q in SubVisited(folder, dirname, d, Descended(folder, dirname, d, depth, f), depth, f) {
        SubVisitedSound(folder, dirname, d, depth, f, q);
      }
      if Walked(folder, dirname, d, depth, f, q) && |dirname| < |q| {
        SubVisitedComplete(folder, dirname, d, depth, f, q);
      }
    }
  }

  /** Every directory the walk yields below `dirname` is one `Walked` admits. */
  lemma {:induction false} SubVisitedSound(folder: Path, dirname: Path, d: Dir, depth: int, f: Filter, q: Path)
    requires |dirname| - |folder| <= depth
    requires q in SubVisited(folder, dirname, d, Descended(folder, dirname, d, depth, f), depth, f)
    ensures Walked(folder, dirname, d, depth, f, q) && |dirname| < |q|
    decreases d, 0
  {
    var kept := Descended(folder, dirname, d, depth, f);
    SubVisitedMember(folder, dirname, d, kept, depth, f, q);
    var n :| n in kept && q in Visited(folder, dirname + [n], Child(d, n), depth, f);
    VisitedIff(folder, dirname + [n], Child(d, n), depth, f, q);
    assert IncludeFile(f, n) by {
      KeepMember(Names(d.subdirs), Accepts(f));
    }
    WalkedFromChild(folder, dirname, d, depth, f, q, n);
  }

  /** Every directory below `dirname` that `Walked` admits is yielded by the walk. */
  lemma {:induction false} SubVisitedComplete(folder: Path, dirname: Path, d: Dir, depth: int, f: Filter, q: Path)
    requires |dirname| - |folder| <= depth
    requires Walked(folder, dirname, d, depth, f, q) && |dirname| < |q|
    ensures q in SubVisited(folder, dirname, d, Descended(folder, dirname, d, depth, f), depth, f)
    decreases d, 0
  {
    var kept := Descended(folder, dirname, d, depth, f);
    var n := q[|dirname|];
    WalkedFromParent(folder, dirname, d, depth, f, q);
    assert n in kept by {
      KeepMember(Names(d.subdirs), Accepts(f));
    }
    VisitedIff(folder, dirname + [n], Child(d, n), depth, f, q);
    SubVisitedMember(folder, dirname, d, kept, depth, f, q);
  }

  /** With neither `include` nor `exclude`, every entry down to `depth + 1` levels below `folder` is listed. */
  lemma UnfilteredComplete(folder: Path, tree: Dir, depth: int, p: Path)
    requires Below(p, folder) && IsEntry(tree, p[|folder|..]) && |p| - |folder| <= depth + 1
    ensures p in Listing(folder, folder, tree, depth, Filter(None, None))
  {
    ListingIff(folder, folder, tree, depth, Filter(None, None), p);
  }

  /**
   * Nothing at or below a rejected name is listed or visited: a path through
   * a component the filter rejects is neither in the listing nor among the
   * directories the walk yields.
   */
  lemma ExcludedSubtreeSkipped(folder: Path, tree: Dir, depth: int, f: Filter, rel: Path, i: nat)
    requires i < |rel| && !IncludeFile(f, rel[i])
    ensures forall p | p in Listing(folder, folder, tree, depth, f) :: !Below(p, folder + rel)
    ensures forall q | q in Visited(folder, folder, tree, depth, f) :: !Below(q, folder + rel)
  {
    forall p | Below(p, folder + rel)
      ensures !AllAccepted(p[|folder|..], f)
    {
      assert p[|folder|..][i] == (folder + rel)[|folder| + i] == rel[i];
    }
    forall p | p in Listing(folder, folder, tree, depth, f)
      ensures !Below(p, folder + rel)
    {
      ListingIff(folder, folder, tree, depth, f, p);
    }
    forall q | q in Visited(folder, folder, tree, depth, f)
      ensures !Below(q, folder + rel)
    {
      VisitedIff(folder, folder, tree, depth, f, q);
    }
  }

  /**
   * The depth bound: every listed path lies one to `depth + 1` levels below
   * `folder`, and every directory the walk yields other than `folder` at most
   * `depth + 1` levels below it, so a directory `depth + 1` levels down is
   * visited but not descended into.
   */
  lemma DepthBound(folder: Path, tree: Dir, depth: int, f: Filter)
    ensures forall p | p in Listing(folder, folder, tree, depth, f) :: Below(p, folder) && |folder| < |p| <= |folder| + depth + 1
    ensures forall q | q in Visited(folder, folder, tree, depth, f) :: Below(q, folder) && (q == folder || |q| <= |folder| + depth + 1)
  {
    forall p | p in Listing(folder, folder, tree, depth, f)
      ensures Below(p, folder) && |folder| < |p| <= |folder| + depth + 1
    {
      ListingIff(folder, folder, tree, depth, f, p);
    }
    forall q | q in Visited(folder, folder, tree, depth, f)
      ensures Below(q, folder) && (q == folder || |q| <= |folder| + depth + 1)
    {
      VisitedIff(folder, folder, tree, depth, f, q);
      assert Below(q, folder) && |q| == |folder| ==> q == folder;
    }
  }

  /** The directory holding the entry `p`. */
  function Parent(p: Path): Path
    requires p != []
  {
    p[..|p| - 1]
  }

  /** Every path `Join` makes lies one level below `dirname`. */
  lemma DirEntriesShallow(dirname: Path, d: Dir, f: Filter, i: nat)
    requires i < |DirEntries(dirname, d, f)|
    ensures |DirEntries(dirname, d, f)[i]| == |dirname| + 1
  {
  }

  /**
   * The walk is top-down: a path two or more levels below `dirname` is
   * listed after the path of the directory that holds it.
   */
  lemma {:induction false} TopDown(folder: Path, dirname: Path, d: Dir, depth: int, f: Filter, i: nat)
    requires i < |Listing(folder, dirname, d, depth, f)|
    requires |Listing(folder, dirname, d, depth, f)[i]| > |dirname| + 1
    ensures exists j | 0 <= j < i :: Listing(folder, dirname, d, depth, f)[j] == Parent(Listing(folder, dirname, d, depth, f)[i])
    decreases d, 1
  {
    var L := Listing(folder, dirname, d, depth, f);
    var kept := Keep(Names(d.subdirs), Accepts(f));
    var E := DirEntries(dirname, d, f);
    KeepMember(Names(d.subdirs), Accepts(f));
    var S := SubListings(folder, dirname, d, kept, depth, f);
    assert L == E + S;
    if i < |E| {
      DirEntriesShallow(dirname, d, f, i);
      assert false;
    }
    var k := i - |E|;
    assert L[i] == S[k];
    SubTopDown(folder, dirname, d, kept, depth, f, k);
    var P := Parent(S[k]);
    if exists j | 0 <= j < k :: S[j] == P {
      var j :| 0 <= j < k && S[j] == P;
      assert L[|E| + j] == P;
    } else {
      var n :| n in kept && P == dirname + [n];
      var m :| 0 <= m < |kept| && kept[m] == n;
      assert L[m] == E[m] == dirname + [n];
    }
  }

  /** `TopDown` for the listings of the subdirectories named in `names`, whose own paths `Join` lists first. */
  lemma {:induction false} SubTopDown(folder: Path, dirname: Path, d: Dir, names: seq<string>, depth: int, f: Filter, i: nat)
    requires forall n | n in names :: n in Names(d.subdirs)
    requires i < |SubListings(folder, dirname, d, names, depth, f)|
    ensures var S := SubListings(folder, dirname, d, names, depth, f);
      && |S[i]| > |dirname| + 1
      && ((exists j | 0 <= j < i :: S[j] == Parent(S[i])) || (exists n | n in names :: Parent(S[i]) == dirname + [n]))
    decreases d, 0, |names|
  {
    var S := SubListings(folder, dirname, d, names, depth, f);
    var init, last := names[..|names| - 1], names[|names| - 1];
    var S0 := SubListings(folder, dirname, d, init, depth, f);
    var C := Listing(folder, dirname + [last], Child(d, last), depth, f);
    assert S == S0 + C;
    if i < |S0| {
      SubTopDown(folder, dirname, d, init, depth, f, i);
      assert S[i] == S0[i];
      if exists j | 0 <= j < i :: S0[j] == Parent(S0[i]) {
        var j :| 0 <= j < i && S0[j] == Parent(S0[i]);
        assert S[j] == S0[j];
      } else {
        var n :| n in init && Parent(S0[i]) == dirname + [n];
        assert n in names;
      }
    } else {
      var k := i - |S0|;
      assert S[i] == C[k];
      assert C[k] in C;
      ListingIff(folder, dirname + [last], Child(d, last), depth, f, C[k]);
      if |C[k]| > |dirname| + 2 {
        TopDown(folder, dirname + [last], Child(d, last), depth, f, k);
        var j :| 0 <= j < k && C[j] == Parent(C[k]);
        assert S[|S0| + j] == C[j];
      } else {
        assert Parent(C[k]) == C[k][..|dirname| + 1] == dirname + [last];
      }
    }
  }

  /*
   * The imperative model.
   */

  /**
   * The `while` loop that counts how many `path.split`s take `dirname` back
   * to `folder`.
   */
  method DepthBelow(folder: Path, dirname: Path) returns (dp: nat)
    requires Below(dirname, folder)
    ensures dp == |dirname| - |folder|
  {
    var head := dirname;
    dp := 0;
    while head != folder
      invariant |folder| <= |head| <= |dirname| && head == dirname[..|head|]
      invariant dp == |dirname| - |head|
      decreases |head|
    {
      assert head[..|folder|] == folder;
      head := head[..|head| - 1];
      dp := dp + 1;
    }
  }

  /**
   * The loop over `dirnames`: each accepted subdirectory is appended to
   * `paths` joined with `dirname`, each rejected one to `excl_dir`.
   */
  method ListSubdirs(dirname: Path, dirnames: seq<string>, f: Filter, paths: seq<Path>)
    returns (paths': seq<Path>, excl: seq<string>)
    ensures paths' == paths + Join(dirname, Keep(dirnames, Accepts(f)))
    ensures excl == Keep(dirnames, Rejects(f))
  {
    excl := [];
    paths' := paths;
    for i := 0 to |dirnames|
      invariant excl == Keep(dirnames[..i], Rejects(f))
      invariant paths' == paths + Join(dirname, Keep(dirnames[..i], Accepts(f)))
    {
      var dir := dirnames[i];
      assert dirnames[..i + 1] == dirnames[..i] + [dir];
      KeepSnoc(dirnames[..i], dir, Rejects(f));
      KeepSnoc(dirnames[..i], dir, Accepts(f));
      if !IncludeFile(f, dir) {
        excl := excl + [dir];
        continue;
      }
      JoinSnoc(dirname, Keep(dirnames[..i], Accepts(f)), dir);
      ConcatAssoc(paths, Join(dirname, Keep(dirnames[..i], Accepts(f))), [dirname + [dir]]);
      paths' := paths' + [dirname + [dir]];
    }
    assert dirnames[..|dirnames|] == dirnames;
  }

  /** The loop over `fnames`: each accepted file is appended to `paths` joined with `dirname`. */
  method ListFiles(dirname: Path, fnames: seq<string>, f: Filter, paths: seq<Path>) returns (paths': seq<Path>)
    ensures paths' == paths + Join(dirname, Keep(fnames, Accepts(f)))
  {
    paths' := paths;
    for i := 0 to |fnames|
      invariant paths' == paths + Join(dirname, Keep(fnames[..i], Accepts(f)))
    {
      var file := fnames[i];
      assert fnames[..i + 1] == fnames[..i] + [file];
      KeepSnoc(fnames[..i], file, Accepts(f));
      if !IncludeFile(f, file) {
        continue;
      }
      JoinSnoc(dirname, Keep(fnames[..i], Accepts(f)), file);
      ConcatAssoc(paths, Join(dirname, Keep(fnames[..i], Accepts(f))), [dirname + [file]]);
      paths' := paths' + [dirname + [file]];
    }
    assert fnames[..|fnames|] == fnames;
  }

  /**
   * The pruning loop: walking `excl` from its last name back to its first,
   * each name is removed from `dirnames`, whose other names stay in order.
   */
  method Prune(dirnames: seq<string>, excl: seq<string>) returns (pruned: seq<string>)
    requires Distinct(dirnames) && Distinct(excl)
    requires forall x | x in excl :: x in dirnames
    ensures pruned == Keep(dirnames, NotIn(Elements(excl)))
  {
    pruned := dirnames;
    var j := |excl|;
    KeepAll(dirnames, NotIn(Elements(excl[j..])));
    while j > 0
      invariant 0 <= j <= |excl|
      invariant pruned == Keep(dirnames, NotIn(Elements(excl[j..])))
    {
      j := j - 1;
      DistinctSuffix(excl, j);
      assert excl[j..] == [excl[j]] + excl[j + 1..];
      assert Elements(excl[j..]) == Elements(excl[j + 1..]) + {excl[j]};
      RemoveFirstKeep(dirnames, Elements(excl[j + 1..]), excl[j]);
      pruned := RemoveFirst(pruned, excl[j]);
    }
    assert excl[0..] == excl;
  }

  /**
   * One iteration of the `for` loop over the walk: the directory `dirname`
   * with subdirectory names `dirnames` and file names `fnames`. Returns the
   * extended `paths` and what is left of `dirnames`, which the walk then
   * descends into.
   */
  method VisitDir(folder: Path, dirname: Path, dirnames: seq<string>, fnames: seq<string>, depth: int, f: Filter,
                  paths: seq<Path>)
    returns (paths': seq<Path>, pruned: seq<string>)
    requires Below(dirname, folder) && Distinct(dirnames)
    // too deep: nothing is listed and `del dirnames[:]` stops the descent
    ensures |dirname| - |folder| > depth ==> paths' == paths && pruned == []
    // otherwise: the accepted subdirectories, then the accepted files, are appended
    ensures |dirname| - |folder| <= depth ==>
      paths' == paths + Join(dirname, Keep(dirnames, Accepts(f))) + Join(dirname, Keep(fnames, Accepts(f)))
    // and exactly the rejected subdirectories are pruned, the others kept in order
    ensures |dirname| - |folder| <= depth ==> pruned == Keep(dirnames, Accepts(f))
  {
    var dp := DepthBelow(folder, dirname);
    if dp > depth {
      return paths, [];
    }
    var excl;
    paths', excl := ListSubdirs(dirname, dirnames, f, paths);
    paths' := ListFiles(dirname, fnames, f, paths');
    KeepDistinct(dirnames, Rejects(f));
    assert forall x | x in excl :: x in dirnames && !IncludeFile(f, x) by {
      KeepMember(dirnames, Rejects(f));
    }
    pruned := Prune(dirnames, excl);
    assert forall x | x in dirnames :: NotIn(Elements(excl))(x) == Accepts(f)(x) by {
      KeepMember(dirnames, Rejects(f));
    }
    KeepAgree(dirnames, NotIn(Elements(excl)), Accepts(f));
  }

  /** Walking one more accepted subdirectory extends both the listing and the visited directories by its own. */
  lemma SubWalkSnoc(own: seq<Path>, seen: seq<Path>, folder: Path, dirname: Path, d: Dir, names: seq<string>, i: nat,
                    depth: int, f: Filter)
    requires forall n | n in names :: n in Names(d.subdirs)
    requires i < |names|
    ensures own + SubListings(folder, dirname, d, names[..i + 1], depth, f)
         == own + SubListings(folder, dirname, d, names[..i], depth, f)
            + Listing(folder, dirname + [names[i]], Child(d, names[i]), depth, f)
    ensures seen + SubVisited(folder, dirname, d, names[..i + 1], depth, f)
         == seen + SubVisited(folder, dirname, d, names[..i], depth, f)
            + Visited(folder, dirname + [names[i]], Child(d, names[i]), depth, f)
  {
    assert names[..i + 1][..i] == names[..i] && names[..i + 1][i] == names[i];
    ConcatAssoc(own, SubListings(folder, dirname, d, names[..i], depth, f),
                Listing(folder, dirname + [names[i]], Child(d, names[i]), depth, f));
    ConcatAssoc(seen, SubVisited(folder, dirname, d, names[..i], depth, f),
                Visited(folder, dirname + [names[i]], Child(d, names[i]), depth, f));
  }

  /** The subdirectories the walk descends into from `dirname`: none when it is too deep, else the accepted ones. */
  function Descended(folder: Path, dirname: Path, d: Dir, depth: int, f: Filter): (names: seq<string>)
    ensures forall n | n in names :: n in Names(d.subdirs)
  {
    KeepMember(Names(d.subdirs), Accepts(f));
    if |dirname| - |folder| > depth then [] else Keep(Names(d.subdirs), Accepts(f))
  }

  /** A listing is the visit's own entries followed by the listings of the subdirectories descended into. */
  lemma WalkUnfold(paths: seq<Path>, visited: seq<Path>, folder: Path, dirname: Path, d: Dir, depth: int, f: Filter)
    ensures var own := if |dirname| - |folder| > depth then paths else
              paths + Join(dirname, Keep(Names(d.subdirs), Accepts(f))) + Join(dirname, Keep(d.files, Accepts(f)));
      paths + Listing(folder, dirname, d, depth, f) == own + SubListings(folder, dirname, d, Descended(folder, dirname, d, depth, f), depth, f)
    ensures visited + Visited(folder, dirname, d, depth, f)
         == visited + [dirname] + SubVisited(folder, dirname, d, Descended(folder, dirname, d, depth, f), depth, f)
  {
    var names := Descended(folder, dirname, d, depth, f);
    ConcatAssoc(visited, [dirname], SubVisited(folder, dirname, d, names, depth, f));
    if |dirname| - |folder| <= depth {
      ConcatAssoc(paths, Join(dirname, names), Join(dirname, Keep(d.files, Accepts(f))));
      ConcatAssoc(paths, DirEntries(dirname, d, f), SubListings(folder, dirname, d, names, depth, f));
    }
  }

  /**
   * `os.walk(dirname)` from the directory `d`, top-down, with the loop body
   * run at each directory it yields: the walk descends, in order, into the
   * subdirectories still named in `dirnames` after the body ran. `visited`
   * collects the directories yielded.
   */
  method Walk(folder: Path, dirname: Path, d: Dir, depth: int, f: Filter, paths: seq<Path>, ghost visited: seq<Path>)
    returns (paths': seq<Path>, ghost visited': seq<Path>)
    requires Below(dirname, folder) && WellFormed(d)
    ensures paths' == paths + Listing(folder, dirname, d, depth, f)
    ensures visited' == visited + Visited(folder, dirname, d, depth, f)
    decreases d
  {
    var kept;
    paths', kept := VisitDir(folder, dirname, Names(d.subdirs), d.files, depth, f, paths);
    visited' := visited + [dirname];
    ghost var own, seen := paths', visited';
    assert kept == Descended(folder, dirname, d, depth, f);
    for i := 0 to |kept|
      invariant paths' == own + SubListings(folder, dirname, d, kept[..i], depth, f)
      invariant visited' == seen + SubVisited(folder, dirname, d, kept[..i], depth, f)
    {
      var n := kept[i];
      SubWalkSnoc(own, seen, folder, dirname, d, kept, i, depth, f);
      paths', visited' := Walk(folder, dirname + [n], Child(d, n), depth, f, paths', visited');
    }
    assert kept[..|kept|] == kept;
    WalkUnfold(paths, visited, folder, dirname, d, depth, f);
  }

  /** `get_dirlist(folder, depth, include, exclude)` over the tree `tree` found at `folder`. */
  method GetDirlist(folder: Path, tree: Dir, depth: int, f: Filter) returns (paths: seq<Path>)
    requires WellFormed(tree)
    ensures paths == Listing(folder, folder, tree, depth, f)
    // the result holds exactly the entries reached through accepted names, down to `depth + 1` levels
    ensures forall p :: p in paths <==> Reaches(folder, folder, tree, depth, f, p)
  {
    ghost var visited;
    paths, visited := Walk(folder, folder, tree, depth, f, [], []);
    forall p
      ensures p in paths <==> Reaches(folder, folder, tree, depth, f, p)
    {
      ListingIff(folder, folder, tree, depth, f, p);
    }
  }

  /*
   * Scenario.
   */

  /**
   * With depth 0, a folder holding one subdirectory and one file lists just
   * those two, subdirectory first, and nothing from inside the subdirectory.
   */
  method DepthZeroListsTopLevel() returns (paths: seq<Path>)
    ensures paths == [["home", "sub"], ["home", "notes.txt"]]
  {
    var sub := Dir("sub", [], ["deep.txt"]);
    var tree := Dir("home", [sub], ["notes.txt"]);
    var f := Filter(None, None);
    assert Names(tree.subdirs) == ["sub"];
    assert WellFormed(tree) by {
      assert WellFormed(sub);
    }
    paths := GetDirlist(["home"], tree, 0, f);
    assert Keep(["sub"], Accepts(f)) == ["sub"] by {
      assert ["sub"][1..] == [];
    }
    assert Keep(["notes.txt"], Accepts(f)) == ["notes.txt"] by {
      assert ["notes.txt"][1..] == [];
    }
    assert Listing(["home"], ["home", "sub"], sub, 0, f) == [];
    assert SubListings(["home"], ["home"], tree, ["sub"], 0, f) == [] by {
      assert ["sub"][..0] == [];
    }
    assert Join(["home"], ["sub"]) == [["home", "sub"]] by {
      assert Join(["home"], ["sub"])[0] == ["home"] + ["sub"] == ["home", "sub"];
    }
    assert Join(["home"], ["notes.txt"]) == [["home", "notes.txt"]] by {
      assert Join(["home"], ["notes.txt"])[0] == ["home"] + ["notes.txt"] == ["home", "notes.txt"];
    }
    assert DirEntries(["home"], tree, f) == [["home", "sub"], ["home", "notes.txt"]];
  }
}
