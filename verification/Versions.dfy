/** The contents a file has had, one after the other, as the log of all moments shows them. */
module Versions {
  import opened ByteStrings
  import opened PakStates
  import opened Disks

  /** A content the archive's file has had, and after how many commands it was put there. */
  datatype Version = Version(bytes: seq<byte>, step: nat)

  /** In all these moments, the file at path was one of the versions, one after the other. */
  ghost predicate Serves(moments: seq<Files>, path: Path, versions: seq<Version>, which: seq<nat>) {
    && |moments| == |which|
    && (forall k :: 0 <= k < |moments| ==> Served(moments[k], path, versions, which[k]))
    && (forall j, k :: 0 <= j < k < |which| ==> which[j] <= which[k])
  }

  ghost predicate Served(now: Files, path: Path, versions: seq<Version>, v: nat) {
    v < |versions| && path in now && now[path] == versions[v].bytes
  }

  ghost function VersionAt(f0: Files, now: Files, path: Path, last: nat): nat {
    if path in f0 && path in now && now[path] == f0[path] then last else last + 1
  }

  lemma ServesMore(log: seq<Files>, more: seq<Files>, from: nat, path: Path, f0: Files, f1: Files, published: bool,
                   versions: seq<Version>, which: seq<nat>, step: nat)
    returns (versions': seq<Version>, which': seq<nat>)
    requires from <= |log| && Serves(log[from..], path, versions, which)
    requires AllOrNothing(f0, log, f1, more, path, published)
    requires versions != [] && versions[|versions| - 1].bytes == f0[path]
    ensures from <= |more| && Serves(more[from..], path, versions', which')
    ensures versions' != [] && versions'[|versions'| - 1].bytes == f1[path]
    ensures versions' == if published then versions + [Version(f1[path], step)] else versions
  {
    hide Kept;
    versions' := if published then versions + [Version(f1[path], step)] else versions;
    var last := |versions| - 1;
    var now := more[|log|..];
    var here := seq(|now|, k requires 0 <= k < |now| => VersionAt(f0, now[k], path, last));
    which' := which + here;
    assert more[from..] == log[from..] + now;
    forall k | 0 <= k < |now|
      ensures Served(now[k], path, versions', here[k]) && OldOrNew(f0, now[k], f1, path, published) {
      assert OldOrNew(f0, more[|log| + k], f1, path, published);
    }
    forall j, k | 0 <= j < k < |now| ensures here[j] <= here[k] {
      assert now[j] == more[|log| + j] && now[k] == more[|log| + k];
    }
    ServesJoin(log[from..], now, path, versions, versions', which, here, last);
  }

  lemma ServesJoin(earlier: seq<Files>, now: seq<Files>, path: Path, versions: seq<Version>, versions': seq<Version>,
                   which: seq<nat>, here: seq<nat>, last: nat)
    requires Serves(earlier, path, versions, which) && versions <= versions' && |versions| == last + 1
    requires Serves(now, path, versions', here) && forall k :: 0 <= k < |here| ==> last <= here[k]
    ensures Serves(earlier + now, path, versions', which + here)
  {
    forall k | 0 <= k < |earlier| ensures Served(earlier[k], path, versions', which[k]) && which[k] <= last {
      assert Served(earlier[k], path, versions, which[k]);
    }
  }

  lemma FirstVersion(log: seq<Files>, path: Path, bytes: seq<byte>)
    ensures Serves(log[|log|..], path, [Version(bytes, 0)], [])
  {}

  /** In the log since `start`, the archive's file was the versions one after the other, and it is the last of
      them now. */
  ghost predicate OnFile(log: seq<Files>, start: nat, files: Files, path: Path, first: seq<byte>,
                       versions: seq<Version>, which: seq<nat>)
  {
    && start <= |log| && Serves(log[start..], path, versions, which)
    && versions != [] && versions[0].bytes == first
    && path in files && versions[|versions| - 1].bytes == files[path]
  }

  lemma OneMoreVersion(log: seq<Files>, start: nat, files: Files, path: Path, first: seq<byte>, versions: seq<Version>,
                    which: seq<nat>, files': Files, log': seq<Files>, published: bool, step: nat)
    returns (versions': seq<Version>, which': seq<nat>)
    requires OnFile(log, start, files, path, first, versions, which) && path in files'
    requires AllOrNothing(files, log, files', log', path, published)
    ensures OnFile(log', start, files', path, first, versions', which')
    ensures versions' == if published then versions + [Version(files'[path], step)] else versions
  {
    hide Serves;
    versions', which' := ServesMore(log, log', start, path, files, files', published, versions, which, step);
  }
}
