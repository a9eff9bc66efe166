/**
 * The `generate` callback handed to the manifest plugin: it folds the
 * emitted file records into the seed dictionary, in place, and keeps the
 * `index` entry point's files that are not source maps.
 */
module Manifest {
  import opened Wrappers
  import opened Strings

  /** One emitted file as the manifest plugin reports it. */
  datatype FileRecord = FileRecord(name: string, path: string)

  /** Suffix of the source-map files dropped from the entry-point list. */
  const SourceMapSuffix := ".map"

  /** Name of the entry point whose files are listed. */
  const IndexEntry := "index"

  /** The names the records mention. */
  function Names(files: seq<FileRecord>): set<string> {
    set i | 0 <= i < |files| :: files[i].name
  }

  /**
   * The dictionary `files.reduce(...)` leaves behind when it starts from a
   * present seed: each record, in list order, sets `name` to `path`.
   */
  function Folded(seed: map<string, string>, files: seq<FileRecord>): (m: map<string, string>)
    ensures m.Keys == seed.Keys + Names(files)
    decreases |files|
  {
    if files == [] then seed
    else
      var last := files[|files| - 1];
      assert Names(files) == Names(files[..|files| - 1]) + {last.name} by {
        assert forall i :: 0 <= i < |files| - 1 ==> files[..|files| - 1][i] == files[i];
      }
      Folded(seed, files[..|files| - 1])[last.name := last.path]
  }

  /** Folding a concatenation is folding the second part over the first. */
  lemma {:induction false} FoldedAppend(seed: map<string, string>, a: seq<FileRecord>, b: seq<FileRecord>)
    ensures Folded(seed, a + b) == Folded(Folded(seed, a), b)
    decreases |b|
  {
    if b == [] {
      assert a + b == a;
    } else {
      assert (a + b)[..|a + b| - 1] == a + b[..|b| - 1];
      FoldedAppend(seed, a, b[..|b| - 1]);
    }
  }

  /** A record no later record renames is the one whose path stays. */
  lemma {:induction false} FoldedLastWins(seed: map<string, string>, files: seq<FileRecord>, i: int)
    requires 0 <= i < |files|
    requires forall j :: i < j < |files| ==> files[j].name != files[i].name
    ensures files[i].name in Folded(seed, files)
    ensures Folded(seed, files)[files[i].name] == files[i].path
    decreases |files|
  {
    if i < |files| - 1 {
      FoldedLastWins(seed, files[..|files| - 1], i);
    }
  }

  /** A seed key no record names keeps its seed value. */
  lemma {:induction false} FoldedKeepsSeed(seed: map<string, string>, files: seq<FileRecord>, k: string)
    requires k in seed
    requires forall j :: 0 <= j < |files| ==> files[j].name != k
    ensures k in Folded(seed, files) && Folded(seed, files)[k] == seed[k]
    decreases |files|
  {
    if files != [] {
      FoldedKeepsSeed(seed, files[..|files| - 1], k);
    }
  }

  /**
   * `names.filter(fileName => !fileName.endsWith(".map"))`: every kept
   * name is not a source map, and each name that is not a source map is
   * kept as many times as it occurs.
   */
  function DropSourceMaps(names: seq<string>): (r: seq<string>)
    ensures forall k :: 0 <= k < |r| ==> !EndsWith(r[k], SourceMapSuffix)
    ensures forall x :: multiset(r)[x] == if EndsWith(x, SourceMapSuffix) then 0 else multiset(names)[x]
    decreases |names|
  {
    if names == [] then []
    else
      assert names == [names[0]] + names[1..];
      var rest := DropSourceMaps(names[1..]);
      if EndsWith(names[0], SourceMapSuffix) then rest else [names[0]] + rest
  }

  /** The filter keeps relative order: it distributes over concatenation. */
  lemma {:induction false} DropSourceMapsAppend(a: seq<string>, b: seq<string>)
    ensures DropSourceMaps(a + b) == DropSourceMaps(a) + DropSourceMaps(b)
    decreases |a|
  {
    if a == [] {
      assert a + b == b;
    } else {
      assert (a + b)[1..] == a[1..] + b;
      DropSourceMapsAppend(a[1..], b);
    }
  }

  /** A list without source maps passes through unchanged. */
  lemma {:induction false} DropSourceMapsKeepsClean(names: seq<string>)
    requires forall k :: 0 <= k < |names| ==> !EndsWith(names[k], SourceMapSuffix)
    ensures DropSourceMaps(names) == names
    decreases |names|
  {
    if names != [] {
      DropSourceMapsKeepsClean(names[1..]);
    }
  }

  /** Filtering twice is filtering once. */
  lemma {:induction false} DropSourceMapsIdempotent(names: seq<string>)
    ensures DropSourceMaps(DropSourceMaps(names)) == DropSourceMaps(names)
  {
    DropSourceMapsKeepsClean(DropSourceMaps(names));
  }

  /**
   * `entryPoints.index?.filter(...)`: absent when there is no `index`
   * entry point, otherwise its files that are not source maps.
   */
  function EntryPointFiles(entryPoints: map<string, seq<string>>): (r: Option<seq<string>>)
    ensures r.Some? <==> IndexEntry in entryPoints
    ensures r.Some? ==> r.value == DropSourceMaps(entryPoints[IndexEntry])
    ensures r.Some? ==> forall k :: 0 <= k < |r.value| ==>
      r.value[k] in entryPoints[IndexEntry] && !EndsWith(r.value[k], SourceMapSuffix)
    ensures r.Some? ==> forall x :: x in entryPoints[IndexEntry] && !EndsWith(x, SourceMapSuffix) ==> x in r.value
  {
    if IndexEntry in entryPoints then
      var kept := DropSourceMaps(entryPoints[IndexEntry]);
      assert forall x :: x in kept ==> multiset(kept)[x] > 0;
      assert forall x :: x in entryPoints[IndexEntry] ==> multiset(entryPoints[IndexEntry])[x] > 0;
      Some(kept)
    else None
  }

  /** The seed object the plugin passes in, updated in place by the fold. */
  class ManifestObject {
    var entries: map<string, string>

    constructor (entries: map<string, string>)
      ensures this.entries == entries
    {
      this.entries := entries;
    }
  }

  /** The record `generate` returns; the plugin serialises it. */
  datatype Generated = Generated(files: ManifestObject?, entryPoints: Option<seq<string>>)

  /**
   * The `generate` callback. A missing seed (null or undefined) leaves the
   * fold with nothing to write into and is returned as is; a present seed
   * is updated in place and returned itself, not a copy.
   */
  method Generate(seed: ManifestObject?, files: seq<FileRecord>, entryPoints: map<string, seq<string>>)
    returns (out: Generated)
    modifies seed
    ensures out.files == seed
    ensures seed != null ==> seed.entries == Folded(old(seed.entries), files)
    ensures out.entryPoints == EntryPointFiles(entryPoints)
  {
    var manifest := seed;
    var i := 0;
    while i < |files|
      invariant 0 <= i <= |files|
      invariant seed != null ==> seed.entries == Folded(old(seed.entries), files[..i])
    {
      if manifest != null {
        manifest.entries := manifest.entries[files[i].name := files[i].path];
      }
      assert files[..i + 1][..i] == files[..i];
      i := i + 1;
    }
    assert files[..i] == files;
    var entrypointFiles := EntryPointFiles(entryPoints);
    out := Generated(manifest, entrypointFiles);
  }
}
