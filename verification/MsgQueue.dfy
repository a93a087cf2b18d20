/** Zephyr's message queue with its one reader, as the packet thread and the UART threads use
    it: an item put while the reader waits is copied to the reader and never enters the ring
    buffer; any other item goes to the next cell of the ring. */
module MessageQueue {
  /** The reading thread: about to call `k_msgq_get`, blocked in it, or with the item it got. */
  datatype Reader<+T> = Ready | Waiting | Holding(item: T)

  /** `items` is what the ring buffer holds, `writeAt` the cell the next item goes to. */
  datatype MsgQueue<+T> = MsgQueue(items: seq<T>, reader: Reader<T>, cap: nat, writeAt: nat)

  /** After `k_msgq_init` and the start of the reading thread. */
  function Empty<T>(cap: nat): MsgQueue<T> {
    MsgQueue([], Ready, cap, 0)
  }

  predicate ValidQueue<T>(q: MsgQueue<T>) {
    && |q.items| <= q.cap
    && (q.reader.Waiting? ==> q.items == [])
    && (q.cap > 0 ==> q.writeAt < q.cap)
  }

  predicate Full<T>(q: MsgQueue<T>) {
    |q.items| == q.cap
  }

  /** `k_msgq_put` without waiting, which fails on a full queue. */
  function Put<T>(q: MsgQueue<T>, item: T): (r: MsgQueue<T>)
    requires ValidQueue(q)
    ensures ValidQueue(r) && r.cap == q.cap
  {
    if Full(q) then q
    else
      match q.reader
      case Waiting => q.(reader := Holding(item))
      case _ => q.(items := q.items + [item], writeAt := if q.writeAt + 1 == q.cap then 0 else q.writeAt + 1)
  }

  /** The ring is used unless the queue is full or its reader waits. */
  predicate UsesRing<T>(q: MsgQueue<T>) {
    !Full(q) && !q.reader.Waiting?
  }

  /** `k_msgq_get` with `K_FOREVER`, called by a reader that is ready. */
  function Get<T>(q: MsgQueue<T>): (r: MsgQueue<T>)
    requires ValidQueue(q)
    ensures ValidQueue(r) && r.cap == q.cap
  {
    if !q.reader.Ready? then q
    else if q.items == [] then q.(reader := Waiting)
    else q.(items := q.items[1..], reader := Holding(q.items[0]))
  }

  /** The reader is done with its item. */
  function Release<T>(q: MsgQueue<T>): (r: MsgQueue<T>)
    requires ValidQueue(q)
    ensures ValidQueue(r) && r.cap == q.cap
  {
    if q.reader.Holding? then q.(reader := Ready) else q
  }

  /** `k_msgq_purge`. */
  function Purge<T>(q: MsgQueue<T>): (r: MsgQueue<T>)
    requires ValidQueue(q)
    ensures ValidQueue(r) && r.cap == q.cap
  {
    q.(items := [])
  }

  function InHand<T>(q: MsgQueue<T>): seq<T> {
    if q.reader.Holding? then [q.reader.item] else []
  }

  /** What the reader still has to work off, in order. */
  function Backlog<T>(q: MsgQueue<T>): seq<T> {
    InHand(q) + q.items
  }

  lemma PutBacklog<T>(q: MsgQueue<T>, item: T)
    requires ValidQueue(q)
    ensures Backlog(Put(q, item)) == if Full(q) then Backlog(q) else Backlog(q) + [item]
    ensures |Put(q, item).items| <= |q.items| + 1
  {
  }

  lemma GetBacklog<T>(q: MsgQueue<T>)
    requires ValidQueue(q)
    ensures Backlog(Get(q)) == Backlog(q)
    ensures Backlog(q) != [] ==> Get(q).reader == Holding(Backlog(q)[0])
  {
  }

  lemma ReleaseBacklog<T>(q: MsgQueue<T>)
    requires ValidQueue(q) && q.reader.Holding?
    ensures |Backlog(q)| > 0 && Backlog(q)[0] == q.reader.item && Backlog(Release(q)) == Backlog(q)[1..]
  {
  }
}
