/** FindWritableFs: the first simple-file-system volume, in handle order, on
    which a test file can be created; the test file is deleted again. */
module WritableFs {
  import opened Efi
  import opened Trace

  /** One simple-file-system handle as the probe sees it: the statuses of
      HandleProtocol, OpenVolume and the creation of `crsdtest.fil`. */
  datatype Volume = Volume(protocol: Status, openVolume: Status, createTestFile: Status)

  /** HandleProtocol and OpenVolume succeed, so the probe holds the volume's
      root directory; nothing ever closes it. */
  predicate OpensRoot(v: Volume) {
    !v.protocol.IsError() && !v.openVolume.IsError()
  }

  /** Every step of the probe succeeds on the volume. */
  predicate Writable(v: Volume) {
    OpensRoot(v) && !v.createTestFile.IsError()
  }

  /** The status a failed probe leaves behind: that of its first failing step. */
  function ProbeFailure(v: Volume): (s: Status)
    requires !Writable(v)
    ensures s.IsError()
  {
    if v.protocol.IsError() then v.protocol
    else if v.openVolume.IsError() then v.openVolume
    else v.createTestFile
  }

  /** `k` is the first writable volume. */
  predicate FirstWritable(volumes: seq<Volume>, k: nat) {
    k < |volumes| && Writable(volumes[k]) && forall j :: 0 <= j < k ==> !Writable(volumes[j])
  }

  /** The roots opened while probing volumes i up to j, in handle order. */
  function RootsOpened(volumes: seq<Volume>, i: nat, j: nat): seq<Event>
    requires i <= j <= |volumes|
    decreases j - i
  {
    if i == j then []
    else (if OpensRoot(volumes[i]) then [OpenRoot(i)] else []) + RootsOpened(volumes, i + 1, j)
  }

  /** Volume x's root is among those opened from i up to j exactly when x
      lies in that range and its HandleProtocol and OpenVolume succeed. */
  lemma {:induction false} RootsOpenedMembers(volumes: seq<Volume>, i: nat, j: nat, x: nat)
    requires i <= j <= |volumes|
    ensures OpenRoot(x) in RootsOpened(volumes, i, j) <==> i <= x < j && OpensRoot(volumes[x])
    decreases j - i
  {
    if i < j {
      RootsOpenedMembers(volumes, i + 1, j, x);
    }
  }

  /** How many root directories a search over these volumes leaves open: one
      per volume whose OpenVolume succeeds, up to the first writable volume. */
  function LeakedRoots(volumes: seq<Volume>): nat {
    if |volumes| == 0 then 0
    else (if OpensRoot(volumes[0]) then 1 else 0) + (if Writable(volumes[0]) then 0 else LeakedRoots(volumes[1..]))
  }

  /** The result: the status returned, the volume stored in *WritableFs, and
      the events: roots opened and the deletion of the test file. */
  datatype FsSearch = FsSearch(status: Status, fs: Option<nat>, trace: seq<Event>)

  /** The loop from volume i on, entered with the given Status. */
  function Probe(volumes: seq<Volume>, i: nat, status: Status): (r: FsSearch)
    requires i <= |volumes|
    requires forall j :: 0 <= j < i ==> !Writable(volumes[j])
    ensures r.fs.Some? ==>
              && FirstWritable(volumes, r.fs.value)
              && r.status == Success
              && r.trace == RootsOpened(volumes, i, r.fs.value + 1) + [DeleteTestFile(r.fs.value)]
    ensures r.fs.None? ==>
              && (forall j :: 0 <= j < |volumes| ==> !Writable(volumes[j]))
              && r.trace == RootsOpened(volumes, i, |volumes|)
              && r.status == (if i == |volumes| then status else ProbeFailure(volumes[|volumes| - 1]))
    decreases |volumes| - i
  {
    if i == |volumes| then FsSearch(status, None, [])
    else
      var root := if OpensRoot(volumes[i]) then [OpenRoot(i)] else [];
      if Writable(volumes[i]) then FsSearch(Success, Some(i), root + [DeleteTestFile(i)])
      else
        var rest := Probe(volumes, i + 1, ProbeFailure(volumes[i]));
        FsSearch(rest.status, rest.fs, root + rest.trace)
  }

  /** The probe from volume i on shows nothing, frees nothing it does not
      hold, and leaves open exactly the roots LeakedRoots counts. */
  lemma {:induction false} ProbeFacts(volumes: seq<Volume>, i: nat, status: Status)
    requires i <= |volumes|
    requires forall j :: 0 <= j < i ==> !Writable(volumes[j])
    ensures FreesAll(Probe(volumes, i, status).trace, LeakedRoots(volumes[i..]))
    ensures Notifications(Probe(volumes, i, status).trace) == []
    decreases |volumes| - i
  {
    if i == |volumes| {
      assert volumes[i..] == [];
      assert Kinds([]) == [];
    } else {
      var root := if OpensRoot(volumes[i]) then [OpenRoot(i)] else [];
      assert volumes[i..][0] == volumes[i];
      if Writable(volumes[i]) {
        DeletionFacts(i);
        QuietAfterRoot(root, i, [DeleteTestFile(i)], 0);
      } else {
        var rest := Probe(volumes, i + 1, ProbeFailure(volumes[i]));
        ProbeFacts(volumes, i + 1, ProbeFailure(volumes[i]));
        assert volumes[i..][1..] == volumes[i + 1..];
        QuietAfterRoot(root, i, rest.trace, LeakedRoots(volumes[i + 1..]));
      }
    }
  }

  /** A root opened before a quiet trace stays open and shows nothing. */
  lemma QuietAfterRoot(root: seq<Event>, i: nat, rest: seq<Event>, n: nat)
    requires root == [] || root == [OpenRoot(i)]
    requires FreesAll(rest, n) && Notifications(rest) == []
    ensures FreesAll(root + rest, |root| + n)
    ensures Notifications(root + rest) == []
  {
    OpenedFacts(root, i);
    FreesAllAppend(root, rest, |root|, n);
    NotificationsAppend(root, rest);
  }

  /** Deleting the test file holds, frees and shows nothing. */
  lemma DeletionFacts(i: nat)
    ensures FreesAll([DeleteTestFile(i)], 0)
    ensures Notifications([DeleteTestFile(i)]) == []
  {
    assert Kinds([DeleteTestFile(i)]) == [DeletesTestFile];
    assert Replay([DeletesTestFile], NoBuffers) == Some(NoBuffers);
  }

  /** At most one root opened: held, and no square shown. */
  lemma OpenedFacts(root: seq<Event>, i: nat)
    requires root == [] || root == [OpenRoot(i)]
    ensures FreesAll(root, |root|)
    ensures Notifications(root) == []
  {
    if root != [] {
      assert Kinds(root) == [OpensFile];
      assert Replay([OpensFile], NoBuffers) == Some(Buffers(false, false, 1));
    } else {
      assert Kinds(root) == [];
    }
  }

  /** How many roots a search leaves open; none when the handle search fails. */
  function RootsLeft(search: HandleSearch<Volume>): nat {
    if search.Handles? then LeakedRoots(search.found) else 0
  }

  function FindWritableFs(search: HandleSearch<Volume>): (r: FsSearch)
    ensures !r.status.IsError() <==> r.fs.Some?
    ensures r.fs.Some? ==>
              && search.Handles?
              && FirstWritable(search.found, r.fs.value)
              && r.status == Success
              && r.trace == RootsOpened(search.found, 0, r.fs.value + 1) + [DeleteTestFile(r.fs.value)]
    ensures r.fs.None? ==>
              && (search.Handles? ==> forall j :: 0 <= j < |search.found| ==> !Writable(search.found[j]))
              && r.trace == (if search.Handles? then RootsOpened(search.found, 0, |search.found|) else [])
    ensures search.SearchFailed? ==> r.status == Error(search.code)
    ensures FreesAll(r.trace, RootsLeft(search))
    ensures Notifications(r.trace) == []
  {
    var (status, volumes) := LocateHandleBuffer(search);
    if status.IsError() then
      assert Kinds([]) == [];
      assert search.Handles? ==> search.found == [];
      FsSearch(status, None, [])
    else
      assert volumes[0..] == volumes;
      ProbeFacts(volumes, 0, status);
      Probe(volumes, 0, status)
  }
}
