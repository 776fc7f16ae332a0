/** The linked FIFO queues of the thread pool, and the rule that picks the queue to serve next. */
module WorkQueues {

  datatype Option<T> = None | Some(value: T)

  class WorkItem<T> {
    var next: WorkItem?<T>
    const data: T

    constructor (d: T)
      ensures next == null && data == d
    {
      next, data := null, d;
    }
  }

  /** A queue as a value: what waits in it, and how many items were popped since the last reset. */
  datatype Queue<T> = Queue(items: seq<T>, popped: nat)

  class WorkQueue<T> {
    var head: WorkItem?<T>
    var tail: WorkItem?<T>
    var itemCount: int
    var popped: nat
    ghost var nodes: seq<WorkItem<T>>

    ghost predicate Valid()
      reads this, nodes
    {
      && itemCount == |nodes|
      && (|nodes| == 0 ==> head == null && tail == null)
      && (|nodes| > 0 ==> head == nodes[0] && tail == nodes[|nodes| - 1])
      && (forall i | 0 <= i < |nodes| - 1 :: nodes[i].next == nodes[i + 1])
      && (|nodes| > 0 ==> nodes[|nodes| - 1].next == null)
      && (forall i, j | 0 <= i < j < |nodes| :: nodes[i] != nodes[j])
    }

    ghost function Contents(): (s: seq<T>)
      reads this
      ensures |s| == |nodes|
    {
      var n := nodes;
      seq(|n|, i requires 0 <= i < |n| => n[i].data)
    }

    ghost function Model(): Queue<T>
      reads this
    {
      Queue(Contents(), popped)
    }

    /** work_queue_new */
    constructor ()
      ensures Valid() && Model() == Queue([], 0) && fresh(nodes)
    {
      head, tail, itemCount, popped, nodes := null, null, 0, 0, [];
    }

    /** work_queue_add */
    method Add(data: T)
      requires Valid()
      modifies this, nodes
      ensures Valid() && Model() == Queue(old(Contents()) + [data], old(popped))
      ensures fresh(set x | x in nodes && x !in old(nodes))
    {
      var item := new WorkItem(data);
      if head == null {
        head, tail := item, item;
        itemCount := 1;
      } else {
        tail.next := item;
        tail := item;
        itemCount := itemCount + 1;
      }
      nodes := nodes + [item];
    }

    /** work_queue_pop */
    method Pop() returns (r: Option<T>)
      requires Valid()
      modifies this
      ensures Valid() && popped == old(popped)
      ensures old(Contents()) == [] ==> r == None && Contents() == []
      ensures old(Contents()) != [] ==> r == Some(old(Contents())[0]) && Contents() == old(Contents())[1..]
      ensures forall x | x in nodes :: x in old(nodes)
    {
      if head == null {
        return None;
      }
      var item := head;
      var data := item.data;
      head := item.next;
      if head == null {
        tail := null;
      }
      itemCount := itemCount - 1;
      nodes := nodes[1..];
      return Some(data);
    }
  }

  // ----- which queue is served

  const SINGLE_BULK_RATIO: nat := 4
  const SINGLE_BULK_SUM: nat := SINGLE_BULK_RATIO + 1

  datatype Kind = Single | Bulk

  /** What thrmgr_pop does to the two queues: the job it hands out and where it came from. */
  datatype PopResult<T> = PopResult(job: Option<T>, kind: Kind, single: Queue<T>, bulk: Queue<T>)

  /** Take from `first`, or else from `second`; the counter that reaches the ratio resets the other. */
  function Take<T>(first: Queue<T>, second: Queue<T>, ratio: nat): (Option<T>, bool, Queue<T>, Queue<T>) {
    if first.items != [] then
      var f := Queue(first.items[1..], first.popped + 1);
      (Some(first.items[0]), true, f, if f.popped == ratio then second.(popped := 0) else second)
    else if second.items != [] then
      var s := Queue(second.items[1..], second.popped + 1);
      (Some(second.items[0]), false, if s.popped == ratio then first.(popped := 0) else first, s)
    else
      (None, true, first, second)
  }

  function Pick<T>(single: Queue<T>, bulk: Queue<T>): PopResult<T> {
    if single.popped < SINGLE_BULK_RATIO then
      var (job, own, f, s) := Take(single, bulk, SINGLE_BULK_RATIO);
      PopResult(job, if own then Single else Bulk, f, s)
    else
      var (job, own, f, s) := Take(bulk, single, SINGLE_BULK_SUM - SINGLE_BULK_RATIO);
      PopResult(job, if own then Bulk else Single, s, f)
  }

  /** A pop finds a job whenever one waits in either queue, and takes the first of its queue. */
  lemma PickFinds<T>(single: Queue<T>, bulk: Queue<T>)
    ensures var r := Pick(single, bulk);
            && (r.job == None <==> single.items == [] && bulk.items == [])
            && (r.job == None ==> r.single == single && r.bulk == bulk)
            && (r.job.Some? && r.kind == Single ==>
                  single.items == [r.job.value] + r.single.items && r.bulk.items == bulk.items)
            && (r.job.Some? && r.kind == Bulk ==>
                  bulk.items == [r.job.value] + r.bulk.items && r.single.items == single.items)
  {}

  /** The queue part of thrmgr_pop does to the linked queues what Pick does to their values. */
  method ThrmgrPop<T>(single: WorkQueue<T>, bulk: WorkQueue<T>) returns (task: Option<T>)
    requires single != bulk && single.Valid() && bulk.Valid()
    requires (set x | x in single.nodes) !! (set x | x in bulk.nodes)
    modifies single, bulk
    ensures single.Valid() && bulk.Valid()
    ensures (set x | x in single.nodes) !! (set x | x in bulk.nodes)
    ensures var r := old(Pick(single.Model(), bulk.Model()));
            task == r.job && single.Model() == r.single && bulk.Model() == r.bulk
    ensures task == None <==> old(single.Contents() == [] && bulk.Contents() == [])
    ensures task.Some? ==>
              || (old(single.Contents()) == [task.value] + single.Contents() && bulk.Contents() == old(bulk.Contents()))
              || (old(bulk.Contents()) == [task.value] + bulk.Contents() && single.Contents() == old(single.Contents()))
  {
    PickFinds(single.Model(), bulk.Model());
    var first, second, ratio := single, bulk, SINGLE_BULK_RATIO;
    if single.popped >= SINGLE_BULK_RATIO {
      first, second, ratio := bulk, single, SINGLE_BULK_SUM - SINGLE_BULK_RATIO;
    }
    task := PopEither(first, second, ratio);
  }

  method PopEither<T>(first: WorkQueue<T>, second: WorkQueue<T>, ratio: nat) returns (task: Option<T>)
    requires first != second && first.Valid() && second.Valid()
    requires (set x | x in first.nodes) !! (set x | x in second.nodes)
    modifies first, second
    ensures first.Valid() && second.Valid()
    ensures (set x | x in first.nodes) !! (set x | x in second.nodes)
    ensures var r := old(Take(first.Model(), second.Model(), ratio));
            task == r.0 && first.Model() == r.2 && second.Model() == r.3
  {
    task := first.Pop();
    if task.Some? {
      first.popped := first.popped + 1;
      if first.popped == ratio {
        second.popped := 0;
      }
    } else {
      task := second.Pop();
      if task.Some? {
        second.popped := second.popped + 1;
        if second.popped == ratio {
          first.popped := 0;
        }
      }
    }
  }
}
