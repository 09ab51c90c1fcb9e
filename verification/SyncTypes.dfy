// What the sync protocol talks about: payloads, digests, packages, the record of the
// last sync, and the decision taken from them (core/src/sync.c).

module SyncTypes {
  import opened Common

  // A save is a small file tree: path to contents.
  type Payload = map<Bytes, Bytes>

  // The payload digest. Two payloads have the same digest exactly when they are equal:
  // that is the environment assumption every protocol statement rests on. What is assumed
  // is only that SHA-256 does not collide on the payloads of one title; module Package
  // (EqualDigestsMeanEqualSaves) proves the rest for the bytes that are hashed.
  datatype Digest = DigestOf(payload: Payload)

  // What open_save finds for a title.
  datatype Save = Absent | Archive(payload: Payload)

  // A package file: the digest its manifest claims, what it really carries, and whether
  // its manifest names this platform and title.
  datatype Package = Package(claimed: Digest, payload: Payload, ours: bool)

  // The record of the last successful sync, as one state file holds it.
  datatype Base = Base(version: nat, digest: Digest)

  datatype LocalState = LocalState(hasSave: bool, digest: Digest, baseVersion: nat, baseDigest: Option<Digest>)

  datatype Remote = NoRemote | Remote(version: nat, digest: Digest)

  datatype Action = Nothing | Upload | Download | Conflict

  // How a conflict is answered, and which questions were answered in advance.
  datatype Policy = Ask | KeepLocal | KeepServer | Defer
  datatype Opts = Opts(conflict: Policy, uploadConfirmed: bool, restoreConfirmed: bool)

  const VERSION_NONE: nat := 0

  // The options a run at startup uses: nobody is there to answer anything.
  function AutosyncOpts(): Opts { Opts(Defer, true, true) }

  predicate LocalDirty(local: LocalState) {
    if !local.hasSave then false
    else if local.baseVersion == VERSION_NONE || local.baseDigest.None? then true
    else Some(local.digest) != local.baseDigest
  }

  function Decide(local: LocalState, remote: Remote): Action {
    if !local.hasSave then
      if remote.Remote? then Download else Nothing
    else if remote.NoRemote? then Upload
    else if local.digest == remote.digest then Nothing
    else
      var dirty := LocalDirty(local);
      if local.baseVersion == remote.version then
        if dirty then Upload else Conflict
      else if local.baseVersion < remote.version then
        if dirty then Conflict else Download
      else Conflict
  }

  // The server for one title: the payloads it ever accepted, version k at index k - 1.
  type History = seq<Payload>

  // What GET latest answers.
  function Latest(h: History): Remote {
    if h == [] then NoRemote else Remote(|h|, DigestOf(h[|h| - 1]))
  }

  function ParentOf(remote: Remote): nat {
    if remote.Remote? then remote.version else VERSION_NONE
  }

  // A record names a version the server really holds, with that version's digest.
  predicate BaseTrue(b: Base, h: History) {
    1 <= b.version <= |h| && b.digest == DigestOf(h[b.version - 1])
  }

  predicate RemoteTrue(remote: Remote, h: History) {
    remote.Remote? ==> BaseTrue(Base(remote.version, remote.digest), h)
  }

  predicate NoEmptyVersion(h: History) {
    map[] !in h
  }

  // The local view a scan builds from an archive and the state file.
  function ScanOf(save: Save, state: Option<Base>): LocalState {
    LocalState(
      save.Archive?,
      if save.Archive? then DigestOf(save.payload) else DigestOf(map[]),
      if state.Some? then state.value.version else VERSION_NONE,
      if state.Some? then Some(state.value.digest) else None)
  }
}
