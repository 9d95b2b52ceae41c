/** How resolve_path splits a path (vendor/apfs/src/catalog.rs), and the paths the driver forms for children. */
module Paths {
  import opened Volume

  /** One more character in front of the pieces. */
  function Prepend(c: char, pieces: seq<string>): (r: seq<string>)
    requires |pieces| > 0
    ensures |r| > 0
  {
    if c == '/' then [""] + pieces else [[c] + pieces[0]] + pieces[1..]
  }

  /** The pieces of a path between its slashes. */
  function Split(path: string): (pieces: seq<string>)
    ensures |pieces| > 0
  {
    if path == "" then [""] else Prepend(path[0], Split(path[1..]))
  }

  function NonEmpty(pieces: seq<string>): seq<string> {
    if pieces == [] then []
    else (if pieces[0] == "" then [] else [pieces[0]]) + NonEmpty(pieces[1..])
  }

  /** The components of a path; slashes at its ends and doubled ones make no difference. */
  function Components(path: string): seq<string> {
    NonEmpty(Split(path))
  }

  lemma PrependConcat(c: char, a: seq<string>, b: seq<string>)
    requires |a| > 0
    ensures Prepend(c, a + b) == Prepend(c, a) + b
  {
    if c == '/' {
      assert [""] + (a + b) == [""] + a + b;
    } else {
      assert (a + b)[0] == a[0] && (a + b)[1..] == a[1..] + b;
    }
  }

  lemma {:induction false} SplitAtSlash(a: string, b: string)
    ensures Split(a + "/" + b) == Split(a) + Split(b)
  {
    var path := a + "/" + b;
    if a == "" {
      assert path[0] == '/' && path[1..] == b;
      assert Split(path) == Prepend('/', Split(b));
    } else {
      SplitAtSlash(a[1..], b);
      assert path[0] == a[0] && path[1..] == a[1..] + "/" + b;
      PrependConcat(a[0], Split(a[1..]), Split(b));
    }
  }

  lemma {:induction false} NonEmptyConcat(a: seq<string>, b: seq<string>)
    ensures NonEmpty(a + b) == NonEmpty(a) + NonEmpty(b)
  {
    if a == [] {
      assert a + b == b;
    } else {
      NonEmptyConcat(a[1..], b);
      assert (a + b)[0] == a[0] && (a + b)[1..] == a[1..] + b;
      var first := if a[0] == "" then [] else [a[0]];
      assert first + (NonEmpty(a[1..]) + NonEmpty(b)) == first + NonEmpty(a[1..]) + NonEmpty(b);
    }
  }

  lemma {:induction false} SplitName(name: string)
    requires '/' !in name
    ensures Split(name) == [name]
  {
    if name != "" {
      SplitName(name[1..]);
      assert [name[0]] + name[1..] == name;
    }
  }

  lemma OneName(name: string)
    requires '/' !in name && name != ""
    ensures Components(name) == [name]
  {
    SplitName(name);
    assert [name][1..] == [] && NonEmpty([]) == [];
    assert NonEmpty([name]) == [name] + NonEmpty([name][1..]);
  }

  lemma RootHasNoComponents(dir: string)
    requires IsRoot(dir)
    ensures Components(dir) == []
  {
    if dir == "/" {
      assert dir[1..] == "" && Split(dir) == ["", ""];
      assert ["", ""][1..] == [""];
    }
    assert [""][1..] == [];
  }

  lemma ComponentsAtSlash(a: string, b: string)
    ensures Components(a + "/" + b) == Components(a) + Components(b)
  {
    SplitAtSlash(a, b);
    NonEmptyConcat(Split(a), Split(b));
  }

  /** A child's path has its directory's components and its own name. */
  lemma ChildComponents(dir: string, name: string)
    requires '/' !in name && name != ""
    ensures Components(ChildPath(dir, name)) == Components(dir) + [name]
  {
    OneName(name);
    if IsRoot(dir) {
      RootHasNoComponents(dir);
      RootHasNoComponents("");
      ComponentsAtSlash("", name);
      assert "" + "/" + name == "/" + name;
    } else {
      ComponentsAtSlash(dir, name);
    }
  }
}
