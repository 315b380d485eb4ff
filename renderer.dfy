/**
 * `displayPackages` of the renderer (src/renderer.js): the parsed listing is flattened into
 * the `packageList` element, one `<li>` per package version. The list element is modelled
 * by the sequence of its items' texts.
 */
module Renderer {
  import opened Wrappers

  /**
   * A package of the listing: its name and the keys of its `versions` object, in
   * enumeration order, or None when the package has no `versions` field.
   */
  type Package = (string, Option<seq<string>>)

  /** A parsed listing: the entries of its `packages` object, or None when the field is missing. */
  datatype Listing = Listing(packages: Option<seq<Package>>)

  /** The text of one list item. */
  function Entry(name: string, version: string): string {
    name + " - " + version
  }

  /** `Object.keys(packageInfo.versions || {})`. */
  function VersionsOf(p: Package): seq<string> {
    p.1.GetOr([])
  }

  /** The items one package contributes, in its version-key order. */
  function Group(p: Package): seq<string> {
    seq(|VersionsOf(p)|, j requires 0 <= j < |VersionsOf(p)| => Entry(p.0, VersionsOf(p)[j]))
  }

  /** The items of all packages, package by package in the listing's key order. */
  function Flatten(packages: seq<Package>): seq<string> {
    if packages == [] then [] else Group(packages[0]) + Flatten(packages[1..])
  }

  /** The number of (package, version key) pairs. */
  function EntryCount(packages: seq<Package>): nat {
    if packages == [] then 0 else |VersionsOf(packages[0])| + EntryCount(packages[1..])
  }

  /** `data.packages || {}` */
  function PackagesOf(data: Listing): seq<Package> {
    data.packages.GetOr([])
  }

  lemma {:induction false} FlattenAppend(a: seq<Package>, b: seq<Package>)
    ensures Flatten(a + b) == Flatten(a) + Flatten(b)
  {
    if a == [] {
      assert a + b == b;
    } else {
      assert (a + b)[0] == a[0] && (a + b)[1..] == a[1..] + b;
      FlattenAppend(a[1..], b);
    }
  }

  lemma {:induction false} EntryCountAppend(a: seq<Package>, b: seq<Package>)
    ensures EntryCount(a + b) == EntryCount(a) + EntryCount(b)
  {
    if a == [] {
      assert a + b == b;
    } else {
      assert (a + b)[0] == a[0] && (a + b)[1..] == a[1..] + b;
      EntryCountAppend(a[1..], b);
    }
  }

  /** The list has one item per (package, version key) pair: the sum of the version counts. */
  lemma {:induction false} FlattenLength(packages: seq<Package>)
    ensures |Flatten(packages)| == EntryCount(packages)
  {
    if packages != [] {
      FlattenLength(packages[1..]);
    }
  }

  /**
   * Completeness and order: version `j` of package `i` is the item at position
   * `EntryCount(packages[..i]) + j`, after every item of the packages before it.
   */
  lemma {:induction false} FlattenAt(packages: seq<Package>, i: nat, j: nat)
    requires i < |packages| && j < |VersionsOf(packages[i])|
    ensures EntryCount(packages[..i]) + j < |Flatten(packages)|
    ensures Flatten(packages)[EntryCount(packages[..i]) + j] == Entry(packages[i].0, VersionsOf(packages[i])[j])
  {
    FlattenLength(packages);
    if i == 0 {
      assert packages[..0] == [];
    } else {
      var tail := packages[1..];
      FlattenAt(tail, i - 1, j);
      assert packages[..i] == [packages[0]] + tail[..i - 1];
      EntryCountAppend([packages[0]], tail[..i - 1]);
      assert EntryCount([packages[0]]) == |VersionsOf(packages[0])| by {
        assert [packages[0]][1..] == [];
      }
    }
  }

  /**
   * Grouping: all items of package `i` come before those of any later package `i2`, since
   * the position of package `i2`'s first item is past the last item of package `i`.
   */
  lemma PackagesInOrder(packages: seq<Package>, i: nat, i2: nat)
    requires i < i2 <= |packages|
    ensures EntryCount(packages[..i]) + |VersionsOf(packages[i])| <= EntryCount(packages[..i2])
  {
    assert packages[..i2] == packages[..i] + ([packages[i]] + packages[i + 1..i2]);
    EntryCountAppend(packages[..i], [packages[i]] + packages[i + 1..i2]);
    EntryCountAppend([packages[i]], packages[i + 1..i2]);
    assert [packages[i]][1..] == [];
  }

  lemma EntryCountCons(p: Package, rest: seq<Package>, i: nat)
    requires i <= |rest|
    ensures EntryCount(([p] + rest)[..i + 1]) == |VersionsOf(p)| + EntryCount(rest[..i])
  {
    assert ([p] + rest)[..i + 1] == [p] + rest[..i];
    EntryCountAppend([p], rest[..i]);
    assert [p][1..] == [];
  }

  /** The package that the `k`-th (package, version key) pair belongs to. */
  function Locate(packages: seq<Package>, k: nat): (i: nat)
    requires k < EntryCount(packages)
    ensures i < |packages|
    ensures EntryCount(packages[..i]) <= k < EntryCount(packages[..i]) + |VersionsOf(packages[i])|
  {
    assert packages[..0] == [];
    if k < |VersionsOf(packages[0])| then 0
    else
      var i' := Locate(packages[1..], k - |VersionsOf(packages[0])|);
      EntryCountCons(packages[0], packages[1..], i');
      assert [packages[0]] + packages[1..] == packages;
      i' + 1
  }

  /**
   * No additions: every item of the list is version `k - EntryCount(packages[..i])` of some
   * package `i`.
   */
  lemma FlattenIndex(packages: seq<Package>, k: nat)
    requires k < |Flatten(packages)|
    ensures exists i ::
      && 0 <= i < |packages|
      && EntryCount(packages[..i]) <= k < EntryCount(packages[..i]) + |VersionsOf(packages[i])|
      && Flatten(packages)[k] == Entry(packages[i].0, VersionsOf(packages[i])[k - EntryCount(packages[..i])])
  {
    FlattenLength(packages);
    var i := Locate(packages, k);
    FlattenAt(packages, i, k - EntryCount(packages[..i]));
  }

  /** A package without a `versions` field contributes nothing and leaves the others as they are. */
  lemma VersionlessPackageContributesNothing(before: seq<Package>, name: string, after: seq<Package>)
    ensures Flatten(before + [(name, None)] + after) == Flatten(before) + Flatten(after)
  {
    var versionless: Package := (name, None);
    FlattenAppend(before + [versionless], after);
    FlattenAppend(before, [versionless]);
    assert Flatten([versionless]) == [] by {
      assert [versionless][1..] == [];
    }
  }

  /** The `packageList` element, as the texts of its items in document order. */
  class PackageList {
    var items: seq<string>

    constructor ()
      ensures items == []
    {
      items := [];
    }

    /**
     * `displayPackages(data)`: clears the list, then appends one item per version of every
     * package. The new items depend on `data` alone, so a second call with the same data
     * leaves the same list.
     */
    method DisplayPackages(data: Listing)
      modifies this
      ensures items == Flatten(PackagesOf(data))
    {
      items := [];
      var packages := PackagesOf(data);
      var i := 0;
      while i < |packages|
        invariant 0 <= i <= |packages|
        invariant items == Flatten(packages[..i])
      {
        var (name, info) := packages[i];
        var versions := info.GetOr([]);
        var j := 0;
        while j < |versions|
          invariant 0 <= j <= |versions|
          invariant items == Flatten(packages[..i]) + Group(packages[i])[..j]
        {
          items := items + [Entry(name, versions[j])];
          j := j + 1;
        }
        assert Group(packages[i])[..j] == Group(packages[i]);
        assert packages[..i + 1] == packages[..i] + [packages[i]];
        FlattenAppend(packages[..i], [packages[i]]);
        assert Flatten([packages[i]]) == Group(packages[i]) by {
          assert [packages[i]][1..] == [];
        }
        i := i + 1;
      }
      assert packages[..i] == packages;
    }
  }
}
