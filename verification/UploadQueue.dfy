/** The queue around UploadServer in cd2n-client/client/files.go: tasks enter, are served one at a time, and go
    back to the end of the queue until they are done. */
module UploadQueue {
  import opened Upload

  /** A task is a value that shares its slots with every copy of itself, like the program's slice. */
  datatype Task = Task(fileHash: string, group: array<Slot>)

  /** What happens to the task taken from the queue: the file is already on the chain, a query fails, there are no
      storage nodes, or a pass is made over the slots. */
  datatype Event = Known | NoDeal | NoNodes | Served(pass: Pass)

  ghost predicate Sound(task: Task, slots: nat)
    reads task.group
  {
    task.group.Length == slots && Independent(task.group[..]) && Consistent(task.group[..])
  }

  predicate AllOnChain(group: seq<Slot>) {
    forall slot <- group :: slot.onChain
  }

  /** The part of one turn that concerns the task itself. */
  method ServeTask(task: Task, event: Event) returns (done: bool)
    requires Sound(task, task.group.Length)
    requires event.Served? ==> Iterates(event.pass)
    modifies task.group
    ensures Sound(task, task.group.Length)
    ensures task.group[..] == if event.Served? then AfterPass(event.pass, old(task.group[..])) else old(task.group[..])
    ensures ChainKept(old(task.group[..]), task.group[..])
    ensures done <==> event.Known? || (event.Served? && AllOnChain(task.group[..]))
  {
    match event {
      case Known => done := true;
      case NoDeal => done := false;
      case NoNodes => done := false;
      case Served(pass) =>
        ghost var before := task.group[..];
        var sucCount := ServePass(task.group, pass);
        PlacementAfterOne(pass, before);
        OnChainCountAll(task.group[..]);
        done := sucCount >= task.group.Length;
    }
  }

  class Server {
    const slots: nat
    var queue: seq<Task>
    var finished: seq<Task>
    var stopped: seq<Task>
    var running: bool
    ghost var enqueued: multiset<Task>

    /** Conservation, and what holds of the slots of every task, while `held` is being served. */
    ghost predicate Holding(held: seq<Task>)
      reads this, set task <- queue :: task.group, set task <- finished :: task.group, set task <- held :: task.group
    {
      && enqueued == multiset(queue) + multiset(finished) + multiset(stopped) + multiset(held)
      && |stopped| <= 1 && (stopped != [] ==> !running)
      && (forall task <- queue :: Sound(task, slots))
      && (forall task <- finished :: Sound(task, slots))
      && (forall task <- held :: Sound(task, slots))
    }

    ghost predicate Valid()
      reads this, set task <- queue :: task.group, set task <- finished :: task.group
    {
      Holding([])
    }

    constructor (slots: nat)
      ensures Valid() && running && this.slots == slots
      ensures queue == [] && finished == [] && stopped == [] && enqueued == multiset{}
    {
      this.slots, running := slots, true;
      queue, finished, stopped := [], [], [];
      enqueued := multiset{};
    }

    /** PreprocessFileAndPutIntoUploadQueue, from the point where the order has been placed. */
    method Enqueue(fileHash: string) returns (task: Task)
      requires Valid()
      modifies this
      ensures Valid() && fresh(task.group) && task.fileHash == fileHash
      ensures task.group[..] == seq(slots, _ => BLANK)
      ensures queue == old(queue) + [task] && finished == old(finished) && stopped == old(stopped)
      ensures enqueued == old(enqueued) + multiset{task} && running == old(running)
    {
      var group := new Slot[slots](_ => BLANK);
      task := Task(fileHash, group);
      assert group[..] == seq(slots, _ => BLANK);
      BlankIsIndependent(slots);
      queue := queue + [task];
      enqueued := enqueued + multiset{task};
    }

    /** One turn of the server's loop. A task without a hash stops the server; the others are finished or requeued,
        and a pass finishes its task exactly when every slot is on chain. */
    method Serve(event: Event)
      requires Valid() && queue != [] && running
      requires event.Served? ==> Iterates(event.pass)
      modifies this, queue[0].group
      ensures Valid() && enqueued == old(enqueued)
      ensures running <==> old(queue)[0].fileHash != ""
      ensures old(queue)[0].fileHash == ""
              ==> stopped == [old(queue)[0]] && queue == old(queue)[1..] && finished == old(finished)
                  && old(queue)[0].group[..] == old(queue[0].group[..])
      ensures old(queue)[0].fileHash != "" ==>
                && stopped == []
                && old(queue)[0].group[..] == (if event.Served? then AfterPass(event.pass, old(queue[0].group[..]))
                                               else old(queue[0].group[..]))
                && if event.Known? || (event.Served? && AllOnChain(old(queue)[0].group[..]))
                   then finished == old(finished) + [old(queue)[0]] && queue == old(queue)[1..]
                   else queue == old(queue)[1..] + [old(queue)[0]] && finished == old(finished)
      ensures ChainKept(old(queue[0].group[..]), old(queue)[0].group[..])
    {
      var task := Take();
      if task.fileHash == "" {
        Stop(task);
        return;
      }
      var done := ServeTask(task, event);
      if done {
        Finish(task);
      } else {
        Requeue(task);
      }
    }

    method Take() returns (task: Task)
      requires Valid() && queue != []
      modifies this
      ensures Holding([task]) && Sound(task, slots) && task == old(queue)[0] && queue == old(queue)[1..]
      ensures finished == old(finished) && stopped == old(stopped) && enqueued == old(enqueued)
      ensures running == old(running)
    {
      task := queue[0];
      assert queue == [task] + queue[1..];
      queue := queue[1..];
    }

    method Requeue(task: Task)
      requires Holding([task])
      modifies this
      ensures Valid() && queue == old(queue) + [task]
      ensures finished == old(finished) && stopped == old(stopped) && enqueued == old(enqueued)
      ensures running == old(running)
    {
      queue := queue + [task];
    }

    method Finish(task: Task)
      requires Holding([task])
      modifies this
      ensures Valid() && finished == old(finished) + [task]
      ensures queue == old(queue) && stopped == old(stopped) && enqueued == old(enqueued)
      ensures running == old(running)
    {
      finished := finished + [task];
    }

    method Stop(task: Task)
      requires Holding([task]) && running
      modifies this
      ensures Valid() && stopped == [task] && !running
      ensures queue == old(queue) && finished == old(finished) && enqueued == old(enqueued)
    {
      stopped, running := [task], false;
    }

    /** The server's context is done: it takes no more tasks and leaves everything as it is. */
    method Cancel()
      requires Valid()
      modifies this
      ensures Valid() && !running
      ensures queue == old(queue) && finished == old(finished) && stopped == old(stopped) && enqueued == old(enqueued)
    {
      running := false;
    }
  }

  lemma PlacementAfterOne(pass: Pass, group: seq<Slot>)
    requires Iterates(pass) && Independent(group) && Consistent(group)
    ensures var after := AfterPass(pass, group);
            Independent(after) && Consistent(after) && ChainKept(group, after)
  {
    assert [pass][1..] == [];
    assert AfterPasses([pass], group) == AfterPass(pass, group);
    PlacementStaysIndependent([pass], group);
  }
}
