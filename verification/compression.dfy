/** The compression normaliser: before anything is fingerprinted, every
    local file whose name passes `should_compress_file?` is rewritten in
    place as a gzip stream whose header carries a fixed modification time,
    so that rebuilding identical content yields identical bytes and hence
    identical MD5 fingerprints. The gzip encoder itself is a parameter. */
module Compression {
  import PathRules

  newtype byte = x: int | 0 <= x < 256

  type Bytes = seq<byte>

  /** The gzip header time: `Time.parse("March 19, 2014").to_i`, read as
      midnight UTC. */
  const FixedMtime: int := 1395187200

  /** The file contents after `k` rounds of compression. */
  function GzipRounds(gzip: (Bytes, int) -> Bytes, k: nat, content: Bytes): (r: Bytes)
  {
    if k == 0 then content else gzip(GzipRounds(gzip, k - 1, content), FixedMtime)
  }

  /** The number of times the loop over `names` compresses the file `name`. */
  function Rounds(names: seq<string>, name: string): (r: nat)
    ensures r <= |names|
  {
    if |names| == 0 then 0
    else (if names[0] == name && PathRules.ShouldCompress(name) then 1 else 0) + Rounds(names[1..], name)
  }

  /** A compressible file is compressed once per listing of its name; any
      other file is never touched. */
  lemma {:induction false} RoundsCount(names: seq<string>, name: string)
    ensures Rounds(names, name) == if PathRules.ShouldCompress(name) then multiset(names)[name] else 0
  {
    if |names| > 0 {
      RoundsCount(names[1..], name);
      assert names == [names[0]] + names[1..];
    }
  }

  /** One iteration of the loop over `local_files`: a compressible file is
      replaced by its gzip stream stamped with the fixed time; no other file
      changes and no file appears or disappears. */
  function CompressStep(name: string, disk: map<string, Bytes>, gzip: (Bytes, int) -> Bytes): (r: map<string, Bytes>)
    requires PathRules.ShouldCompress(name) ==> name in disk
    ensures r.Keys == disk.Keys
    ensures forall n :: n in disk && n != name ==> r[n] == disk[n]
    ensures name in disk ==> r[name] == if PathRules.ShouldCompress(name) then gzip(disk[name], FixedMtime) else disk[name]
  {
    if PathRules.ShouldCompress(name) then disk[name := gzip(disk[name], FixedMtime)] else disk
  }

  /** The whole loop over `local_files`, in order. Each file is compressed
      once per time it is listed and only if its name is compressible; no
      other file changes. */
  function Normalize(names: seq<string>, disk: map<string, Bytes>, gzip: (Bytes, int) -> Bytes): (r: map<string, Bytes>)
    requires forall n :: n in names && PathRules.ShouldCompress(n) ==> n in disk
    ensures r.Keys == disk.Keys
    ensures forall n :: n in disk ==> r[n] == GzipRounds(gzip, Rounds(names, n), disk[n])
  {
    if |names| == 0 then disk
    else
      var next := CompressStep(names[0], disk, gzip);
      var r := Normalize(names[1..], next, gzip);
      assert forall n :: n in disk ==> r[n] == GzipRounds(gzip, Rounds(names, n), disk[n]) by {
        forall n | n in disk
          ensures r[n] == GzipRounds(gzip, Rounds(names, n), disk[n])
        {
          var k := Rounds(names[1..], n);
          if n == names[0] && PathRules.ShouldCompress(n) {
            assert next[n] == gzip(disk[n], FixedMtime);
            assert Rounds(names, n) == k + 1;
            GzipRoundsShift(gzip, k, disk[n]);
          } else {
            assert next[n] == disk[n];
            assert Rounds(names, n) == k;
          }
        }
      }
      r
  }

  /** Compressing first and then `k` more times is `k + 1` rounds. */
  lemma {:induction false} GzipRoundsShift(gzip: (Bytes, int) -> Bytes, k: nat, content: Bytes)
    ensures GzipRounds(gzip, k, gzip(content, FixedMtime)) == GzipRounds(gzip, k + 1, content)
  {
    if k > 0 {
      GzipRoundsShift(gzip, k - 1, content);
    }
  }

  /** With file names listed once, as a directory enumeration lists them,
      each compressible listed file holds exactly the gzip encoding of its
      original bytes with the fixed time, and every other file is unchanged. */
  lemma NormalizeOnce(names: seq<string>, disk: map<string, Bytes>, gzip: (Bytes, int) -> Bytes, name: string)
    requires forall n :: n in names && PathRules.ShouldCompress(n) ==> n in disk
    requires multiset(names)[name] <= 1
    requires name in disk
    ensures Normalize(names, disk, gzip)[name]
      == if name in names && PathRules.ShouldCompress(name) then gzip(disk[name], FixedMtime) else disk[name]
  {
    var k := Rounds(names, name);
    var compressible := PathRules.ShouldCompress(name);
    assert k == if compressible then multiset(names)[name] else 0 by {
      RoundsCount(names, name);
    }
    assert name in names <==> name in multiset(names);
    assert Normalize(names, disk, gzip)[name] == GzipRounds(gzip, k, disk[name]);
    assert GzipRounds(gzip, 1, disk[name]) == gzip(disk[name], FixedMtime);
  }

  /** Determinism: two builds that produce the same bytes for a file end up
      with the same bytes after normalisation (`FingerprintStable` carries
      this over to the fingerprints). */
  lemma NormalizeDeterministic(names: seq<string>, disk1: map<string, Bytes>, disk2: map<string, Bytes>,
                               gzip: (Bytes, int) -> Bytes, name: string)
    requires forall n :: n in names && PathRules.ShouldCompress(n) ==> n in disk1 && n in disk2
    requires name in disk1 && name in disk2 && disk1[name] == disk2[name]
    ensures Normalize(names, disk1, gzip)[name] == Normalize(names, disk2, gzip)[name]
  {
  }

  /** The MD5 fingerprints the diff step compares etags against
      (`Digest::MD5.file(name).to_s`), taken after normalisation: each name
      is fingerprinted by `digest` of its bytes on the normalised disk. A
      name with no file gets the digest of no bytes; the diff step asks
      only for names whose file exists. */
  function Fingerprints(names: seq<string>, disk: map<string, Bytes>, gzip: (Bytes, int) -> Bytes,
                        digest: Bytes -> string): (md5: string -> string)
    requires forall n :: n in names && PathRules.ShouldCompress(n) ==> n in disk
    ensures forall n :: n in disk ==> md5(n) == digest(GzipRounds(gzip, Rounds(names, n), disk[n]))
    ensures forall n :: n !in disk ==> md5(n) == digest([])
  {
    var after := Normalize(names, disk, gzip);
    n => if n in after then digest(after[n]) else digest([])
  }

  /** Why compression uses a fixed header time: two builds that write the
      same bytes to a file give it the same fingerprint, so an unchanged
      file is not re-uploaded, whatever else differs between the builds. */
  lemma {:induction false} FingerprintStable(names: seq<string>, disk1: map<string, Bytes>, disk2: map<string, Bytes>,
                                             gzip: (Bytes, int) -> Bytes, digest: Bytes -> string, name: string)
    requires forall n :: n in names && PathRules.ShouldCompress(n) ==> n in disk1 && n in disk2
    requires name in disk1 && name in disk2 && disk1[name] == disk2[name]
    ensures Fingerprints(names, disk1, gzip, digest)(name) == Fingerprints(names, disk2, gzip, digest)(name)
  {
    NormalizeDeterministic(names, disk1, disk2, gzip, name);
  }
}
