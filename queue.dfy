/** The upload queue of public/main.js:15-42: pasted or dropped files waiting to be uploaded, held
    in the module-level array `queued`, which the three functions change in place. */
module UploadQueue {
  import opened Text

  /** What the queue reads of a `File`: its name, its size and its MIME type. */
  datatype FileInfo = FileInfo(name: string, size: nat, mimeType: string)

  /** The file has a MIME type and it starts with "image/". */
  predicate IsImage(f: FileInfo) {
    f.mimeType != "" && StartsWith(f.mimeType, "image/")
  }

  /** Two entries are the same file when name and size agree. */
  predicate SameFile(a: FileInfo, b: FileInfo) {
    a.name == b.name && a.size == b.size
  }

  /** Some queued entry has the name and the size of `f`. */
  predicate Holds(queue: seq<FileInfo>, f: FileInfo) {
    exists i :: 0 <= i < |queue| && SameFile(queue[i], f)
  }

  /** No two entries are the same file. */
  predicate NoDuplicates(queue: seq<FileInfo>) {
    forall i, j :: 0 <= i < j < |queue| ==> !SameFile(queue[i], queue[j])
  }

  /** One file of the batch: pushed when it is an image not yet queued. */
  function Offer(queue: seq<FileInfo>, f: FileInfo): seq<FileInfo> {
    if IsImage(f) && !Holds(queue, f) then queue + [f] else queue
  }

  /** The loop of `addFilesToQueue`: each file is checked against the queue as it is by then,
      so a duplicate later in the same batch is skipped too. */
  function Enqueue(queue: seq<FileInfo>, files: seq<FileInfo>): (r: seq<FileInfo>)
    ensures queue <= r && |r| <= |queue| + |files|
    decreases |files|
  {
    if files == [] then queue else Enqueue(Offer(queue, files[0]), files[1..])
  }

  /** The entry at `index` taken out when there is one; otherwise no change. */
  function RemoveAt(queue: seq<FileInfo>, index: int): (r: seq<FileInfo>)
    ensures !(0 <= index < |queue|) ==> r == queue
    ensures 0 <= index < |queue| ==>
      && |r| == |queue| - 1
      && (forall j :: 0 <= j < index ==> r[j] == queue[j])
      && (forall j :: index <= j < |r| ==> r[j] == queue[j + 1])
  {
    if 0 <= index < |queue| then queue[..index] + queue[index + 1..] else queue
  }

  /** The existing entries stay first, in their order; every new entry is an image of the batch. */
  lemma {:induction false} EnqueueKeepsPrefix(queue: seq<FileInfo>, files: seq<FileInfo>)
    ensures |Enqueue(queue, files)| >= |queue| && Enqueue(queue, files)[..|queue|] == queue
    ensures forall i :: |queue| <= i < |Enqueue(queue, files)| ==>
      IsImage(Enqueue(queue, files)[i]) && Enqueue(queue, files)[i] in files
    decreases |files|
  {
    if files != [] {
      var next := Offer(queue, files[0]);
      EnqueueKeepsPrefix(next, files[1..]);
      var r := Enqueue(queue, files);
      assert r[..|next|][..|queue|] == r[..|queue|];
      forall i | |queue| <= i < |r| ensures IsImage(r[i]) && r[i] in files {
        if i < |next| {
          assert r[i] == r[..|next|][i] == next[i] == files[0];
        } else {
          assert r[i] in files[1..];
        }
      }
    }
  }

  /** A queue without duplicates gets none. */
  lemma {:induction false} EnqueueKeepsNoDuplicates(queue: seq<FileInfo>, files: seq<FileInfo>)
    requires NoDuplicates(queue)
    ensures NoDuplicates(Enqueue(queue, files))
    decreases |files|
  {
    if files != [] {
      var next := Offer(queue, files[0]);
      if next != queue {
        forall i | 0 <= i < |queue| ensures !SameFile(next[i], next[|queue|]) {
          assert !SameFile(queue[i], files[0]);
        }
      }
      EnqueueKeepsNoDuplicates(next, files[1..]);
    }
  }

  lemma OfferHolds(queue: seq<FileInfo>, f: FileInfo, g: FileInfo)
    ensures Holds(queue, g) ==> Holds(Offer(queue, f), g)
    ensures IsImage(f) ==> Holds(Offer(queue, f), f)
  {
    var next := Offer(queue, f);
    if Holds(queue, g) {
      var i :| 0 <= i < |queue| && SameFile(queue[i], g);
      assert next[i] == queue[i];
    }
    if IsImage(f) && !Holds(queue, f) {
      assert next[|queue|] == f;
    }
  }

  /** Afterwards every image of the batch is queued, as itself or as the same file queued before. */
  lemma {:induction false} EnqueueHoldsImages(queue: seq<FileInfo>, files: seq<FileInfo>)
    ensures forall g :: Holds(queue, g) ==> Holds(Enqueue(queue, files), g)
    ensures forall f :: f in files && IsImage(f) ==> Holds(Enqueue(queue, files), f)
    decreases |files|
  {
    if files != [] {
      var next := Offer(queue, files[0]);
      forall g ensures Holds(queue, g) ==> Holds(next, g) {
        OfferHolds(queue, files[0], g);
      }
      OfferHolds(queue, files[0], files[0]);
      EnqueueHoldsImages(next, files[1..]);
    }
  }

  /** Removing an entry keeps a queue without duplicates so. */
  lemma RemoveKeepsNoDuplicates(queue: seq<FileInfo>, index: int)
    requires NoDuplicates(queue)
    ensures NoDuplicates(RemoveAt(queue, index))
  {
    var r := RemoveAt(queue, index);
    if 0 <= index < |queue| {
      forall i, j | 0 <= i < j < |r| ensures !SameFile(r[i], r[j]) {
        var i' := if i < index then i else i + 1;
        var j' := if j < index then j else j + 1;
        assert r[i] == queue[i'] && r[j] == queue[j'];
      }
    }
  }

  class Queue {
    /** `queued`, without the object URLs. */
    var queued: seq<FileInfo>

    constructor ()
      ensures queued == []
    {
      queued := [];
    }

    /** `addFilesToQueue`. */
    method AddFilesToQueue(files: seq<FileInfo>)
      modifies this
      ensures queued == Enqueue(old(queued), files)
    {
      for i := 0 to |files|
        invariant Enqueue(queued, files[i..]) == Enqueue(old(queued), files)
      {
        assert files[i..][1..] == files[i + 1..];
        var f := files[i];
        if f.mimeType == "" || !StartsWith(f.mimeType, "image/") {
          continue;
        }
        if Holds(queued, f) {
          continue;
        }
        queued := queued + [f];
      }
    }

    /** `clearQueue`. */
    method ClearQueue()
      modifies this
      ensures queued == []
    {
      queued := [];
    }

    /** `removeFromQueue`: `queued[index]` undefined means no change. */
    method RemoveFromQueue(index: int)
      modifies this
      ensures queued == RemoveAt(old(queued), index)
    {
      if !(0 <= index < |queued|) {
        return;
      }
      queued := queued[..index] + queued[index + 1..];
    }
  }
}
