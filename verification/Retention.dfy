/** How long published catalog documents stay: publishGenerated and gcCatalogsLocked of
    internal/catalogservice/service.go over putCatalog and removeCatalogsExcept of
    internal/catalogservice/store.go. A publisher and a collection are not excluded from one
    another, so each file operation is one step. One clock, which never goes back, gives the
    publication times and the file times. */
module Retention {
  import opened Wrappers

  datatype Digest = Digest(hex: string)

  /** A document is stored under the digest of its bytes, so the digest determines the
      publication time written in it. Sets live for `lifetime`. */
  datatype World = World(published: Digest -> int, lifetime: int)

  /** A publication under way: all its documents, those still to write and those written. */
  datatype Publisher = Publisher(at: int, all: set<Digest>, todo: seq<Digest>, written: set<Digest>)

  /** A signed catalog set expires at `at` plus the lifetime. */
  datatype SignedSet = SignedSet(at: int, documents: set<Digest>)

  /** `files` gives the modification time of each stored document; `doomed` are the documents
      a collection has decided to remove. */
  datatype State = State(
    clock: int, files: map<Digest, int>, publisher: Option<Publisher>, sets: set<SignedSet>, doomed: set<Digest>)

  datatype Step =
    | Tick(time: int)
    | Begin(documents: seq<Digest>)
    | Put(mtime: int, write: Write)
    | Sign
    | Abort
    | Decide(document: Digest, referenced: set<Digest>, now: int)
    | Remove(document: Digest)

  predicate Removable(w: World, files: map<Digest, int>, referenced: set<Digest>, now: int, d: Digest) {
    d in files && d !in referenced && !(w.lifetime > 0 && now - files[d] < w.lifetime)
  }

  predicate Enabled(w: World, s: State, step: Step) {
    match step
    case Tick(time) => time >= s.clock
    case Begin(documents) =>
      s.publisher.None? && forall k | 0 <= k < |documents| :: w.published(documents[k]) == s.clock
    case Put(mtime, _) => s.publisher.Some? && s.publisher.value.todo != [] && s.publisher.value.at <= mtime <= s.clock
    case Sign => s.publisher.Some? && s.publisher.value.todo == []
    case Abort => s.publisher.Some?
    case Decide(d, referenced, now) => now <= s.clock && Removable(w, s.files, referenced, now, d)
    case Remove(d) => d in s.doomed
  }

  /** writeImmutable: a document already there is kept with its own time. */
  function Written(files: map<Digest, int>, d: Digest, mtime: int, write: Write): map<Digest, int> {
    if d in files || write.NotDone? then files else files[d := mtime]
  }

  function Apply(s: State, step: Step): State {
    match step
    case Tick(time) => s.(clock := time)
    case Begin(documents) => s.(publisher := Some(Publisher(s.clock, (set d | d in documents), documents, {})))
    case Put(mtime, write) =>
      if s.publisher.None? || s.publisher.value.todo == [] then s
      else
        var p := s.publisher.value;
        var files := Written(s.files, p.todo[0], mtime, write);
        if p.todo[0] in s.files || write.Done?
        then s.(files := files, publisher := Some(p.(todo := p.todo[1..], written := p.written + {p.todo[0]})))
        else s.(files := files, publisher := None)
    case Sign =>
      if s.publisher.None? then s
      else s.(sets := s.sets + {SignedSet(s.publisher.value.at, s.publisher.value.all)}, publisher := None)
    case Abort => s.(publisher := None)
    case Decide(d, _, _) => s.(doomed := s.doomed + {d})
    case Remove(d) => s.(files := s.files - {d}, doomed := s.doomed - {d})
  }

  /** A run, in which steps that cannot be taken are passed over. */
  function Run(w: World, s: State, steps: seq<Step>): State
    decreases |steps|
  {
    if steps == [] then s
    else
      var before := Run(w, s, steps[..|steps| - 1]);
      if Enabled(w, before, steps[|steps| - 1]) then Apply(before, steps[|steps| - 1]) else before
  }

  // ----- The invariant -----

  ghost predicate Kept(w: World, s: State, at: int, documents: set<Digest>) {
    forall d | d in documents :: w.published(d) == at && (d in s.files || at + w.lifetime <= s.clock)
  }

  ghost predicate Inv(w: World, s: State) {
    && w.lifetime > 0
    && (forall d | d in s.files :: w.published(d) <= s.files[d])
    && (forall d | d in s.doomed :: w.published(d) + w.lifetime <= s.clock)
    && (forall set_ | set_ in s.sets :: Kept(w, s, set_.at, set_.documents))
    && (s.publisher.Some? ==>
          && Kept(w, s, s.publisher.value.at, s.publisher.value.written)
          && (forall d | d in s.publisher.value.all :: d in s.publisher.value.written || d in s.publisher.value.todo)
          && forall k | 0 <= k < |s.publisher.value.todo| ::
               w.published(s.publisher.value.todo[k]) == s.publisher.value.at)
  }

  /** Nothing that can vanish breaks a promise: files may only go once their documents are old. */
  lemma KeptOn(w: World, s: State, after: State, at: int, documents: set<Digest>)
    requires Kept(w, s, at, documents) && s.clock <= after.clock
    requires forall d | d in s.files && d !in after.files :: w.published(d) + w.lifetime <= after.clock
    ensures Kept(w, after, at, documents)
  {
  }

  lemma StepKeeps(w: World, s: State, step: Step)
    requires Inv(w, s) && Enabled(w, s, step)
    ensures Inv(w, Apply(s, step))
  {
    hide Kept, Removable, Written;
    var after := Apply(s, step);
    FilesKeep(w, s, step);
    forall at, documents | Kept(w, s, at, documents) ensures Kept(w, after, at, documents) {
      KeptOn(w, s, after, at, documents);
    }
    if step.Decide? {
      OldEnough(w, s, step.document, step.referenced, step.now);
    } else if step.Begin? {
      NothingKept(w, after, s.clock);
    } else if step.Sign? {
      KeptPart(w, after, s.publisher.value.at, s.publisher.value.written, s.publisher.value.all);
    } else if step.Put? {
      var p := s.publisher.value;
      PutKept(w, s, after, p.at, p.written, p.todo[0], step.mtime, step.write);
    }
  }

  lemma FilesKeep(w: World, s: State, step: Step)
    requires Inv(w, s) && Enabled(w, s, step)
    ensures var after := Apply(s, step);
      && s.clock <= after.clock
      && (forall d | d in s.files && d !in after.files :: w.published(d) + w.lifetime <= after.clock)
      && (forall d | d in after.files :: w.published(d) <= after.files[d])
  {
    hide Kept, Removable;
  }

  lemma OldEnough(w: World, s: State, d: Digest, referenced: set<Digest>, now: int)
    requires Inv(w, s) && now <= s.clock && Removable(w, s.files, referenced, now, d)
    ensures w.published(d) + w.lifetime <= s.clock
  {
    hide Kept;
  }

  lemma NothingKept(w: World, s: State, at: int)
    ensures Kept(w, s, at, {})
  {
  }

  lemma KeptPart(w: World, s: State, at: int, documents: set<Digest>, part: set<Digest>)
    requires Kept(w, s, at, documents) && part <= documents
    ensures Kept(w, s, at, part)
  {
  }

  lemma PutKept(w: World, s: State, after: State, at: int, documents: set<Digest>, d: Digest, mtime: int, write: Write)
    requires Kept(w, after, at, documents) && w.published(d) == at && after.files == Written(s.files, d, mtime, write)
    ensures d in s.files || write.Done? ==> Kept(w, after, at, documents + {d})
  {
  }

  lemma {:induction false} RunKeeps(w: World, s: State, steps: seq<Step>)
    requires Inv(w, s)
    ensures Inv(w, Run(w, s, steps))
    decreases |steps|
  {
    hide Inv, Enabled, Apply;
    if steps != [] {
      var last, before := steps[|steps| - 1], Run(w, s, steps[..|steps| - 1]);
      RunKeeps(w, s, steps[..|steps| - 1]);
      if Enabled(w, before, last) {
        StepKeeps(w, before, last);
      }
    }
  }

  predicate Unexpired(w: World, s: State, signed: SignedSet) { s.clock < signed.at + w.lifetime }

  /** In every run, whatever a collection takes to be referenced, each document of an
      unexpired signed set is in the store. */
  lemma UnexpiredStays(w: World, s: State, steps: seq<Step>, signed: SignedSet, d: Digest)
    requires Inv(w, s)
    requires signed in Run(w, s, steps).sets && Unexpired(w, Run(w, s, steps), signed) && d in signed.documents
    ensures d in Run(w, s, steps).files
  {
    hide Run;
    RunKeeps(w, s, steps);
    assert Kept(w, Run(w, s, steps), signed.at, signed.documents);
  }

  /** A service starts on any store whose files are not older than their documents. */
  lemma StartsWell(w: World, clock: int, files: map<Digest, int>)
    requires w.lifetime > 0 && forall d | d in files :: w.published(d) <= files[d]
    ensures Inv(w, State(clock, files, None, {}, {}))
  {
  }

  /** So in every run of a service, from its start on such a store. */
  lemma UnexpiredFromStart(w: World, clock: int, files: map<Digest, int>, steps: seq<Step>, signed: SignedSet,
                           d: Digest)
    requires w.lifetime > 0 && forall x | x in files :: w.published(x) <= files[x]
    requires var end := Run(w, State(clock, files, None, {}, {}), steps);
      signed in end.sets && Unexpired(w, end, signed) && d in signed.documents
    ensures d in Run(w, State(clock, files, None, {}, {}), steps).files
  {
    hide Run, Inv;
    StartsWell(w, clock, files);
    UnexpiredStays(w, State(clock, files, None, {}, {}), steps, signed, d);
  }

  // ----- The collection as one operation -----

  /** The catalogs directory: the modification time of each stored document. */
  class CatalogFiles {
    var files: map<Digest, int>

    /** putCatalog, down to the file operations. */
    method PutCatalog(d: Digest, mtime: int, write: Write) returns (ok: bool)
      modifies this
      ensures files == Written(old(files), d, mtime, write)
      ensures d in old(files) ==> files == old(files)
      ensures ok <==> d in old(files) || write.Done?
    {
      if d in files {
        return true;
      }
      if write.NotDone? {
        return false;
      }
      files := files[d := mtime];
      return write.Done?;
    }

    /** removeCatalogsExcept: removes exactly what is removable, or stops at a failed removal
        having removed nothing else. */
    method RemoveCatalogsExcept(w: World, listing: seq<Digest>, referenced: set<Digest>, now: int,
                                removes: Digest -> bool)
      returns (ok: bool)
      requires forall d :: d in listing <==> d in files
      modifies this
      ensures forall d | d in files :: d in old(files) && files[d] == old(files)[d]
      ensures forall d | d in old(files) && d !in files :: Removable(w, old(files), referenced, now, d)
      ensures ok ==> forall d | d in files :: !Removable(w, old(files), referenced, now, d)
      ensures !ok ==> exists d :: d in files && Removable(w, old(files), referenced, now, d) && !removes(d)
      ensures ok ==> forall d | d in old(files) ::
        d in files <==> d in referenced || (w.lifetime > 0 && now - old(files)[d] < w.lifetime)
    {
      for i := 0 to |listing|
        invariant forall d | d in files :: d in old(files) && files[d] == old(files)[d]
        invariant forall d | d in old(files) && d !in files :: Removable(w, old(files), referenced, now, d)
        invariant forall j | 0 <= j < i && listing[j] in files :: !Removable(w, old(files), referenced, now, listing[j])
      {
        var d := listing[i];
        if Removable(w, files, referenced, now, d) {
          if !removes(d) {
            return false;
          }
          files := files - {d};
        }
      }
      return true;
    }
  }

  /** What one collection does keeps the invariant too. */
  lemma CollectionKeeps(w: World, s: State, left: map<Digest, int>, referenced: set<Digest>, now: int)
    requires Inv(w, s) && now <= s.clock
    requires forall d | d in left :: d in s.files && left[d] == s.files[d]
    requires forall d | d in s.files && d !in left :: Removable(w, s.files, referenced, now, d)
    ensures Inv(w, s.(files := left))
  {
    hide Kept, Removable;
    var after := s.(files := left);
    forall d | d in s.files && d !in left ensures w.published(d) + w.lifetime <= s.clock {
      OldEnough(w, s, d, referenced, now);
    }
    forall at, documents | Kept(w, s, at, documents) ensures Kept(w, after, at, documents) {
      KeptOn(w, s, after, at, documents);
    }
  }
}
