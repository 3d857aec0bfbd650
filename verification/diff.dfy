/** The diff engine: which local files are new, which remote objects have
    changed, and which remote objects are no longer produced. Existence of
    a file on disk (`File.exist?`) and its MD5 fingerprint after
    compression (`Digest::MD5.file(...).to_s`) are parameters. */
module DiffEngine {
  import Seqs
  import Keys
  import opened Listing

  /** Ruby's `a - b`: the elements of `a` that do not occur in `b`, in the
      order of `a` and with their multiplicity in `a`. */
  function Difference(a: seq<string>, b: seq<string>): (r: seq<string>)
    ensures forall x :: x in r <==> x in a && x !in b
    ensures forall x :: x !in b ==> multiset(r)[x] == multiset(a)[x]
  {
    Seqs.Filter(a, x => x !in b)
  }

  /** `remote_object_filenames`: every listed key mapped to a local name,
      in listing order. A name is never longer than its key, and it is the
      key itself exactly when the key contains no `prefix/`. */
  function RemoteNames(prefix: string, objects: seq<RemoteObject>): (r: seq<string>)
    ensures |r| == |objects|
    ensures forall i :: 0 <= i < |objects| ==> r[i] == Keys.LocalName(prefix, objects[i].key)
    ensures forall i :: 0 <= i < |objects| ==>
      |r[i]| <= |objects[i].key| && (r[i] == objects[i].key <==> !Keys.Occurs(prefix + "/", objects[i].key))
  {
    seq(|objects|, i requires 0 <= i < |objects| => Keys.LocalName(prefix, objects[i].key))
  }

  /** The test inside the `changed_files` block: the mapped name exists on
      disk and the quote-stripped etag differs from that file's MD5. */
  predicate IsChanged(prefix: string, o: RemoteObject, fileExists: string -> bool, md5: string -> string)
  {
    var name := Keys.LocalName(prefix, o.key);
    fileExists(name) && Keys.StripQuotes(o.etag) != md5(name)
  }

  /** `changed_files`: the mapped names of the changed objects (`map`
      followed by `compact`); `ChangedFilesInOrder` gives their order. */
  function ChangedFiles(prefix: string, objects: seq<RemoteObject>, fileExists: string -> bool, md5: string -> string)
    : (r: seq<string>)
    ensures forall x :: x in r <==>
      exists o :: o in objects && IsChanged(prefix, o, fileExists, md5) && Keys.LocalName(prefix, o.key) == x
    ensures |r| <= |objects|
  {
    if |objects| == 0 then []
    else
      var rest := ChangedFiles(prefix, objects[1..], fileExists, md5);
      assert objects == [objects[0]] + objects[1..];
      if IsChanged(prefix, objects[0], fileExists, md5) then [Keys.LocalName(prefix, objects[0].key)] + rest
      else rest
  }

  /** The listed objects that pass the test, in listing order. */
  function ChangedObjects(prefix: string, objects: seq<RemoteObject>, fileExists: string -> bool, md5: string -> string)
    : (r: seq<RemoteObject>)
  {
    Seqs.Filter(objects, o => IsChanged(prefix, o, fileExists, md5))
  }

  /** `changed_files` has one entry per changed object, in listing order:
      two changed keys that map to one name give two entries. */
  lemma {:induction false} ChangedFilesInOrder(prefix: string, objects: seq<RemoteObject>,
                                               fileExists: string -> bool, md5: string -> string)
    ensures NamedInOrder(prefix, ChangedFiles(prefix, objects, fileExists, md5), ChangedObjects(prefix, objects, fileExists, md5))
  {
    if |objects| > 0 {
      ChangedFilesInOrder(prefix, objects[1..], fileExists, md5);
      ChangedObjectsCons(prefix, objects, fileExists, md5);
      ChangedFilesCons(prefix, objects, fileExists, md5);
      if IsChanged(prefix, objects[0], fileExists, md5) {
        NamedInOrderCons(prefix, objects[0], ChangedFiles(prefix, objects[1..], fileExists, md5),
                         ChangedObjects(prefix, objects[1..], fileExists, md5));
      }
    }
  }

  /** `names` holds, position by position, the mapped names of `objs`. */
  predicate NamedInOrder(prefix: string, names: seq<string>, objs: seq<RemoteObject>)
  {
    |names| == |objs| && forall i :: 0 <= i < |names| ==> names[i] == Keys.LocalName(prefix, objs[i].key)
  }

  lemma NamedInOrderCons(prefix: string, o: RemoteObject, names: seq<string>, objs: seq<RemoteObject>)
    requires NamedInOrder(prefix, names, objs)
    ensures NamedInOrder(prefix, [Keys.LocalName(prefix, o.key)] + names, [o] + objs)
  {
    var r, all := [Keys.LocalName(prefix, o.key)] + names, [o] + objs;
    forall i | 1 <= i < |r|
      ensures r[i] == Keys.LocalName(prefix, all[i].key)
    {
      assert r[i] == names[i - 1] && all[i] == objs[i - 1];
    }
  }

  lemma ChangedFilesCons(prefix: string, objects: seq<RemoteObject>, fileExists: string -> bool, md5: string -> string)
    requires |objects| > 0
    ensures ChangedFiles(prefix, objects, fileExists, md5) ==
      (if IsChanged(prefix, objects[0], fileExists, md5) then [Keys.LocalName(prefix, objects[0].key)] else [])
        + ChangedFiles(prefix, objects[1..], fileExists, md5)
  {
  }

  lemma ChangedObjectsCons(prefix: string, objects: seq<RemoteObject>, fileExists: string -> bool, md5: string -> string)
    requires |objects| > 0
    ensures ChangedObjects(prefix, objects, fileExists, md5) ==
      (if IsChanged(prefix, objects[0], fileExists, md5) then [objects[0]] else []) + ChangedObjects(prefix, objects[1..], fileExists, md5)
  {
  }

  /** When no listed object passes the test, nothing is changed. */
  lemma {:induction false} NoChangedObjects(prefix: string, objects: seq<RemoteObject>,
                                            fileExists: string -> bool, md5: string -> string)
    requires forall o :: o in objects ==> !IsChanged(prefix, o, fileExists, md5)
    ensures ChangedFiles(prefix, objects, fileExists, md5) == []
  {
    if |objects| > 0 {
      assert objects[0] in objects;
      NoChangedObjects(prefix, objects[1..], fileExists, md5);
    }
  }

  /** The three lists the publisher acts on. */
  datatype Plan = Plan(newFiles: seq<string>, changedFiles: seq<string>, deletedFiles: seq<string>)

  /** The diff step of `publish`: new files keep the order and repetitions
      of the local inventory, deleted files those of the mapped listing,
      and a changed file is the name of a listed object whose file exists
      with a different fingerprint. */
  function ComputePlan(prefix: string, local: seq<string>, objects: seq<RemoteObject>,
                       fileExists: string -> bool, md5: string -> string): (r: Plan)
    ensures forall x :: x in r.newFiles <==> x in local && forall o :: o in objects ==> Keys.LocalName(prefix, o.key) != x
    ensures forall x :: x in r.deletedFiles <==> x !in local && exists o :: o in objects && Keys.LocalName(prefix, o.key) == x
    ensures forall x :: x in r.changedFiles <==>
      exists o :: o in objects && IsChanged(prefix, o, fileExists, md5) && Keys.LocalName(prefix, o.key) == x
    ensures forall x :: x in r.newFiles ==> multiset(r.newFiles)[x] == multiset(local)[x]
    ensures |r.newFiles| <= |local| && |r.deletedFiles| <= |objects| && |r.changedFiles| <= |objects|
  {
    var remote := RemoteNames(prefix, objects);
    Plan(Difference(local, remote), ChangedFiles(prefix, objects, fileExists, md5), Difference(remote, local))
  }

  /** New files are the local names that are not remote, deleted files the
      remote names that are not local; the two are disjoint, and no name
      present in both inventories is new or deleted. */
  lemma NewAndDeleted(prefix: string, local: seq<string>, objects: seq<RemoteObject>,
                      fileExists: string -> bool, md5: string -> string)
    ensures var p := ComputePlan(prefix, local, objects, fileExists, md5);
      var remote := RemoteNames(prefix, objects);
      && (forall x :: x in p.newFiles <==> x in local && x !in remote)
      && (forall x :: x in p.deletedFiles <==> x in remote && x !in local)
      && (forall x :: x in p.newFiles ==> x !in p.deletedFiles)
      && (forall x :: x in local && x in remote ==> x !in p.newFiles && x !in p.deletedFiles)
  {
  }

  /** Together with the names present on both sides, new and deleted files
      cover every name of either inventory. */
  lemma PartitionComplete(prefix: string, local: seq<string>, objects: seq<RemoteObject>,
                          fileExists: string -> bool, md5: string -> string)
    ensures var p := ComputePlan(prefix, local, objects, fileExists, md5);
      var remote := RemoteNames(prefix, objects);
      && Seqs.Elems(p.newFiles) + (Seqs.Elems(local) * Seqs.Elems(remote)) + Seqs.Elems(p.deletedFiles)
         == Seqs.Elems(local) + Seqs.Elems(remote)
      && Seqs.Elems(p.newFiles) !! Seqs.Elems(p.deletedFiles)
      && Seqs.Elems(p.newFiles) !! Seqs.Elems(local) * Seqs.Elems(remote)
      && Seqs.Elems(p.deletedFiles) !! Seqs.Elems(local) * Seqs.Elems(remote)
  {
    var p := ComputePlan(prefix, local, objects, fileExists, md5);
    var remote := RemoteNames(prefix, objects);
    var ls, rs := Seqs.Elems(local), Seqs.Elems(remote);
    assert p.newFiles == Difference(local, remote) && p.deletedFiles == Difference(remote, local);
    DifferenceElems(local, remote);
    DifferenceElems(remote, local);
    SetPartition(ls, rs);
  }

  lemma DifferenceElems(a: seq<string>, b: seq<string>)
    ensures Seqs.Elems(Difference(a, b)) == Seqs.Elems(a) - Seqs.Elems(b)
  {
  }

  lemma SetPartition(l: set<string>, r: set<string>)
    ensures (l - r) + (l * r) + (r - l) == l + r
    ensures (l - r) !! (r - l) && (l - r) !! l * r && (r - l) !! l * r
  {
  }

  /** Every changed file is the mapped name of a listed object whose file
      exists and whose quote-stripped etag differs from the local MD5, and
      it is therefore never a new file. */
  lemma ChangedAreRemoteAndNotNew(prefix: string, local: seq<string>, objects: seq<RemoteObject>,
                                  fileExists: string -> bool, md5: string -> string)
    ensures var p := ComputePlan(prefix, local, objects, fileExists, md5);
      forall x :: x in p.changedFiles ==>
        && x in RemoteNames(prefix, objects)
        && fileExists(x)
        && x !in p.newFiles
        && exists o :: o in objects && Keys.LocalName(prefix, o.key) == x && Keys.StripQuotes(o.etag) != md5(x)
  {
    var p := ComputePlan(prefix, local, objects, fileExists, md5);
    var remote := RemoteNames(prefix, objects);
    forall x | x in p.changedFiles
      ensures x in remote
    {
      var o :| o in objects && IsChanged(prefix, o, fileExists, md5) && Keys.LocalName(prefix, o.key) == x;
      var i :| 0 <= i < |objects| && objects[i] == o;
      assert remote[i] == x;
    }
  }

  /** When every existing file named by a listing entry is a local file,
      changed and deleted files are disjoint, and the changed files are
      exactly the names on both sides with some listed etag that differs
      from the local MD5. */
  lemma ChangedWithinBoth(prefix: string, local: seq<string>, objects: seq<RemoteObject>,
                          fileExists: string -> bool, md5: string -> string)
    requires forall o :: o in objects && fileExists(Keys.LocalName(prefix, o.key)) ==> Keys.LocalName(prefix, o.key) in local
    ensures var p := ComputePlan(prefix, local, objects, fileExists, md5);
      && (forall x :: x in p.changedFiles ==> x !in p.deletedFiles)
      && (forall x :: x in p.changedFiles ==> x in local && x in RemoteNames(prefix, objects))
  {
    ChangedAreRemoteAndNotNew(prefix, local, objects, fileExists, md5);
  }

  /** Without that assumption the two can overlap: a file that exists on
      disk but is not a local file (a dotfile, say) under a listed key is
      both deleted and re-uploaded as changed. */
  lemma ExistingNonLocalIsDeletedAndChanged(prefix: string, local: seq<string>, objects: seq<RemoteObject>,
                                            fileExists: string -> bool, md5: string -> string, o: RemoteObject)
    requires o in objects
    requires Keys.LocalName(prefix, o.key) !in local
    requires fileExists(Keys.LocalName(prefix, o.key))
    requires Keys.StripQuotes(o.etag) != md5(Keys.LocalName(prefix, o.key))
    ensures var p := ComputePlan(prefix, local, objects, fileExists, md5);
      Keys.LocalName(prefix, o.key) in p.changedFiles && Keys.LocalName(prefix, o.key) in p.deletedFiles
  {
    var i :| 0 <= i < |objects| && objects[i] == o;
    assert RemoteNames(prefix, objects)[i] == Keys.LocalName(prefix, o.key);
  }

  /** A state in which site and bucket agree: both inventories hold the
      same names, no file outside the local inventory exists under a listed
      name, and every quote-stripped etag equals the local MD5. */
  predicate InSync(prefix: string, local: seq<string>, objects: seq<RemoteObject>,
                   fileExists: string -> bool, md5: string -> string)
  {
    && (forall x :: x in local ==> x in RemoteNames(prefix, objects))
    && (forall x :: x in RemoteNames(prefix, objects) ==> x in local)
    && (forall o :: o in objects && fileExists(Keys.LocalName(prefix, o.key)) ==> Keys.LocalName(prefix, o.key) in local)
    && (forall o :: o in objects ==> Keys.StripQuotes(o.etag) == md5(Keys.LocalName(prefix, o.key)))
  }

  /** Idempotence: in sync, there is nothing to do. */
  lemma InSyncMeansEmptyPlan(prefix: string, local: seq<string>, objects: seq<RemoteObject>,
                             fileExists: string -> bool, md5: string -> string)
    requires InSync(prefix, local, objects, fileExists, md5)
    ensures ComputePlan(prefix, local, objects, fileExists, md5) == Plan([], [], [])
  {
    var p := ComputePlan(prefix, local, objects, fileExists, md5);
    var remote := RemoteNames(prefix, objects);
    Seqs.FilterNone(local, x => x !in remote);
    Seqs.FilterNone(remote, x => x !in local);
    NoChangedObjects(prefix, objects, fileExists, md5);
  }

  /** A site with a new page `n`, an edited stylesheet `c` and a removed
      script `o`, against a bucket holding `c` and `o`: `n` is new, `c` is
      changed and `o` is deleted. */
  lemma NewChangedDeletedScenario(prefix: string, n: string, c: string, o: string, etagC: string, etagO: string,
                                  fileExists: string -> bool, md5: string -> string)
    requires n != c && c != o && n != o
    requires !Keys.Occurs(prefix + "/", c) && !Keys.Occurs(prefix + "/", o)
    requires fileExists(c) && !fileExists(o)
    requires Keys.StripQuotes(etagC) != md5(c)
    ensures ComputePlan(prefix, [n, c],
                        [RemoteObject(Keys.RemoteKey(prefix, c), etagC), RemoteObject(Keys.RemoteKey(prefix, o), etagO)],
                        fileExists, md5)
         == Plan([n], [c], [o])
  {
    var objects := [RemoteObject(Keys.RemoteKey(prefix, c), etagC), RemoteObject(Keys.RemoteKey(prefix, o), etagO)];
    Keys.KeyRoundTrip(prefix, c);
    Keys.KeyRoundTrip(prefix, o);
    assert RemoteNames(prefix, objects) == [c, o];
    ScenarioDifferences(n, c, o);
    ScenarioChanged(prefix, objects, fileExists, md5);
  }

  lemma ScenarioDifferences(n: string, c: string, o: string)
    requires n != c && c != o && n != o
    ensures Difference([n, c], [c, o]) == [n] && Difference([c, o], [n, c]) == [o]
  {
    DifferencePair(n, c, [c, o]);
    DifferencePair(c, o, [n, c]);
  }

  lemma DifferencePair(x: string, y: string, b: seq<string>)
    ensures Difference([x, y], b) == (if x in b then [] else [x]) + (if y in b then [] else [y])
  {
    DifferenceCons([x, y], b);
    assert [x, y][1..] == [y];
    DifferenceCons([y], b);
    assert [y][1..] == [];
  }

  lemma DifferenceCons(a: seq<string>, b: seq<string>)
    requires |a| > 0
    ensures Difference(a, b) == (if a[0] in b then [] else [a[0]]) + Difference(a[1..], b)
  {
  }

  lemma ScenarioChanged(prefix: string, objects: seq<RemoteObject>, fileExists: string -> bool, md5: string -> string)
    requires |objects| == 2
    requires IsChanged(prefix, objects[0], fileExists, md5)
    requires !fileExists(Keys.LocalName(prefix, objects[1].key))
    ensures ChangedFiles(prefix, objects, fileExists, md5) == [Keys.LocalName(prefix, objects[0].key)]
  {
    assert objects[1..][1..] == [];
    assert ChangedFiles(prefix, objects[1..], fileExists, md5) == [];
  }

  /** The listing of a bucket holding exactly the uploads of `local`: the
      object for `local[i]` sits under its upload key with etag `etags[i]`. */
  function Mirror(prefix: string, local: seq<string>, etags: seq<string>): (r: seq<RemoteObject>)
    requires |etags| == |local|
    ensures |r| == |local|
    ensures forall i :: 0 <= i < |r| ==> r[i] == RemoteObject(Keys.RemoteKey(prefix, local[i]), etags[i])
  {
    seq(|local|, i requires 0 <= i < |local| => RemoteObject(Keys.RemoteKey(prefix, local[i]), etags[i]))
  }

  /** Name round trip through the bucket: listing a bucket that holds
      exactly the uploads of `local` gives back the local names, in order,
      exactly when no local name contains `prefix/`. */
  lemma MirrorNames(prefix: string, local: seq<string>, etags: seq<string>)
    requires |etags| == |local|
    ensures RemoteNames(prefix, Mirror(prefix, local, etags)) == local
        <==> forall n :: n in local ==> !Keys.Occurs(prefix + "/", n)
  {
    var remote := RemoteNames(prefix, Mirror(prefix, local, etags));
    assert forall i :: 0 <= i < |local| ==> remote[i] == Keys.LocalName(prefix, Keys.RemoteKey(prefix, local[i]));
    if remote == local {
      forall n | n in local
        ensures !Keys.Occurs(prefix + "/", n)
      {
        var i :| 0 <= i < |local| && local[i] == n;
        assert remote[i] == n;
      }
    }
  }

  /** Convergence: once the bucket holds exactly the uploads of the local
      files, with etags matching their MD5s, the next run has nothing to do,
      provided no local name contains `prefix/`. */
  lemma MirrorConverges(prefix: string, local: seq<string>, etags: seq<string>,
                        fileExists: string -> bool, md5: string -> string)
    requires |etags| == |local|
    requires forall n :: n in local ==> !Keys.Occurs(prefix + "/", n)
    requires forall i :: 0 <= i < |local| ==> Keys.StripQuotes(etags[i]) == md5(local[i])
    ensures ComputePlan(prefix, local, Mirror(prefix, local, etags), fileExists, md5) == Plan([], [], [])
  {
    var objects := Mirror(prefix, local, etags);
    var remote := RemoteNames(prefix, objects);
    MirrorNames(prefix, local, etags);
    forall o | o in objects
      ensures Keys.LocalName(prefix, o.key) in local
      ensures Keys.StripQuotes(o.etag) == md5(Keys.LocalName(prefix, o.key))
    {
      var i :| 0 <= i < |objects| && objects[i] == o;
      assert remote[i] == Keys.LocalName(prefix, o.key);
    }
    InSyncMeansEmptyPlan(prefix, local, objects, fileExists, md5);
  }

  /** Without that proviso the run never converges: after `dir/prefix/file`
      has been uploaded, the next run still finds it new (its key is
      compared as `dir/file`) and deletes `prefix/dir/file`, a key that does
      not hold the uploaded object, so every later run repeats both. */
  lemma NestedNameNeverConverges(prefix: string, dir: string, file: string, etag: string,
                                 fileExists: string -> bool, md5: string -> string)
    requires |prefix| > 0 && prefix[0] != '/' && prefix[0] !in dir
    requires !Keys.Occurs(prefix + "/", file)
    ensures var local := [dir + "/" + prefix + "/" + file];
      var objects := Mirror(prefix, local, [etag]);
      var p := ComputePlan(prefix, local, objects, fileExists, md5);
      && p.newFiles == local
      && p.deletedFiles == [dir + "/" + file]
      && Keys.RemoteKey(prefix, dir + "/" + file) != objects[0].key
  {
    var name := dir + "/" + prefix + "/" + file;
    var local := [name];
    var objects := Mirror(prefix, local, [etag]);
    Keys.InnerPrefixCollapses(prefix, dir, file);
    var remote := RemoteNames(prefix, objects);
    assert remote == [dir + "/" + file];
    assert |dir + "/" + file| < |name|;
    assert local[1..] == [] && remote[1..] == [];
    assert Difference(local, remote) == local;
    assert Difference(remote, local) == remote;
    assert |Keys.RemoteKey(prefix, dir + "/" + file)| < |objects[0].key|;
  }

  /** A stale key is never cleaned up: next to the live object `prefix/name`,
      a leftover `prefix/prefix/name` is compared under the same name, so its
      differing etag marks `name` as changed on every run, and it is never
      deleted, since its name is local. */
  lemma StaleNestedKeyNeverDeleted(prefix: string, name: string, etag: string, stale: string,
                                   fileExists: string -> bool, md5: string -> string)
    requires !Keys.Occurs(prefix + "/", name)
    requires fileExists(name)
    requires Keys.StripQuotes(etag) == md5(name) && Keys.StripQuotes(stale) != md5(name)
    ensures var live := Keys.RemoteKey(prefix, name);
      ComputePlan(prefix, [name], [RemoteObject(live, etag), RemoteObject(Keys.RemoteKey(prefix, live), stale)],
                  fileExists, md5)
        == Plan([], [name], [])
  {
    var live := Keys.RemoteKey(prefix, name);
    var objects := [RemoteObject(live, etag), RemoteObject(Keys.RemoteKey(prefix, live), stale)];
    Keys.TwoKeysOneName(prefix, name);
    var remote := RemoteNames(prefix, objects);
    assert remote == [name, name];
    assert Difference([name], remote) == [] by {
      Seqs.FilterNone([name], x => x !in remote);
    }
    assert Difference(remote, [name]) == [] by {
      Seqs.FilterNone(remote, x => x !in [name]);
    }
    assert ChangedFiles(prefix, objects[1..], fileExists, md5) == [name] by {
      assert objects[1..][1..] == [];
    }
    assert !IsChanged(prefix, objects[0], fileExists, md5);
  }

  /** A listed key that contains no `prefix/` at all, such as a key of a
      sibling prefix (`site2/x` next to `site`), is taken verbatim as a name;
      if that name is not local it is scheduled for deletion under
      `prefix/key`, which is not the listed key, so the object stays and
      every run repeats the delete. */
  lemma ForeignKeyDeletedElsewhere(prefix: string, local: seq<string>, key: string, etag: string,
                                   fileExists: string -> bool, md5: string -> string)
    requires !Keys.Occurs(prefix + "/", key) && key !in local
    ensures ComputePlan(prefix, local, [RemoteObject(key, etag)], fileExists, md5).deletedFiles == [key]
    ensures Keys.RemoteKey(prefix, key) != key
  {
    var remote := RemoteNames(prefix, [RemoteObject(key, etag)]);
    assert remote == [key];
    assert remote[1..] == [];
  }

  /** A key `prefix/rest` is not spared just because `rest` contains
      `prefix/`: with a one-letter prefix `c`, a listed `cc//` is compared as
      `c/`, so the listed key `c/c/` is deleted although `c/` is not the
      name it was uploaded from. */
  lemma InnerPrefixKeyDeleted(c: char, etag1: string, etag2: string, fileExists: string -> bool, md5: string -> string)
    requires c != '/'
    ensures var objects := [RemoteObject([c, c, '/', '/'], etag1), RemoteObject([c, '/', c, '/'], etag2)];
      && [c, '/'] in ComputePlan([c], [], objects, fileExists, md5).deletedFiles
      && Keys.RemoteKey([c], [c, '/']) == [c, '/', c, '/']
  {
    var objects := [RemoteObject([c, c, '/', '/'], etag1), RemoteObject([c, '/', c, '/'], etag2)];
    Keys.DoubledLeadCollapses(c);
    assert objects[0] in objects && objects[0].key == [c, c, '/', '/'];
  }
}
