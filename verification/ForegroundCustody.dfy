/** Custody of the processes of a foreground group (src/linux_terminal_foreground_custody.h):
    a fixed table of retained descriptors, over a kernel that answers as it likes. */
module ForegroundCustody {
  const BATCH_CAPACITY := 256
  const ENOENT := 2
  const ESRCH := 3
  const EINVAL := 22
  const EALREADY := 114
  const NSIG := 65

  datatype Option<T> = None | Some(value: T)

  datatype ProcessState = ProcessState(group: int, session: int, exited: bool)

  datatype Member = Member(descriptor: int, lastSignal: int, device: int, inode: int)

  const FREE := Member(-1, 0, 0, 0)

  /** What a scan found out about one process entry. */
  datatype Outcome = Vanished | HasExited | NotOurs(state: ProcessState) | Retained(device: int, inode: int)
                   | Unretained | Failed(error: nat)

  /** A process entry of a scan with its outcome. */
  datatype Finding = Finding(pid: int, outcome: Outcome)

  // ---- The kernel ------------------------------------------------------------------------

  class Kernel {
    /** The descriptors opened and not yet closed. */
    var open: set<int>

    /** The descriptors whose process was seen to have exited, or to be gone. */
    ghost var finished: set<int>

    /** How often each process's state was read, and each signal sent; the signals
        that were accepted. */
    ghost var readCounts: multiset<int>
    ghost var sent: multiset<(int, int)>
    ghost var accepted: set<(int, int)>

    /** What was first read of each process since its descriptor was opened. */
    ghost var firstStates: map<int, ProcessState>

    /** What each read of a process gave the last time. */
    ghost var lastErrors: map<int, nat>

    /** The last answers. */
    ghost var read: (nat, ProcessState)
    ghost var probe: nat
    ghost var identity: (nat, int, int)
    ghost var openAnswer: (int, int, nat)

    constructor ()
      ensures open == {} && finished == {}
    {
      open, finished := {}, {};
      readCounts, sent, accepted, firstStates, lastErrors := multiset{}, multiset{}, {}, map[], map[];
    }

    /** The state of a process, or an error. */
    method ReadState(descriptor: int) returns (error: nat, state: ProcessState)
      requires descriptor in open
      modifies this`read, this`finished, this`readCounts, this`firstStates, this`lastErrors
      ensures lastErrors == old(lastErrors)[descriptor := error]
      ensures firstStates ==
        if error == 0 && descriptor !in old(firstStates) then old(firstStates)[descriptor := state] else old(firstStates)
      ensures read == (error, state) && readCounts == old(readCounts) + multiset{descriptor}
      ensures finished == old(finished) + if error == 0 && state.exited then {descriptor} else {}
    {
      error, state := *, *;
      read := (error, state);
      readCounts := readCounts + multiset{descriptor};
      lastErrors := lastErrors[descriptor := error];
      finished := finished + if error == 0 && state.exited then {descriptor} else {};
      firstStates := if error == 0 && descriptor !in firstStates then firstStates[descriptor := state] else firstStates;
    }

    method SignalDescriptor(descriptor: int, signal: int) returns (error: nat)
      requires descriptor in open
      modifies this`probe, this`finished, this`sent, this`accepted
      ensures probe == error && sent == old(sent) + multiset{(descriptor, signal)}
      ensures accepted == old(accepted) + if error == 0 then {(descriptor, signal)} else {}
      ensures finished == old(finished) + if error == ESRCH then {descriptor} else {}
    {
      error := *;
      probe := error;
      sent := sent + multiset{(descriptor, signal)};
      accepted := accepted + if error == 0 then {(descriptor, signal)} else {};
      finished := finished + if error == ESRCH then {descriptor} else {};
    }

    /** The identity of a process. */
    method Identify(descriptor: int) returns (error: nat, device: int, inode: int)
      requires descriptor in open
      modifies this`identity
      ensures identity == (error, device, inode)
    {
      error, device, inode := *, *, *;
      identity := (error, device, inode);
    }

    /** Opens the directory of a process under a descriptor not in use. */
    method OpenEntry(pid: int) returns (descriptor: int, error: nat)
      modifies this`open, this`finished, this`openAnswer, this`firstStates
      ensures firstStates == old(firstStates) - {descriptor}
      ensures openAnswer == (pid, descriptor, error)
      ensures descriptor >= 0 ==> descriptor !in old(open) && open == old(open) + {descriptor}
      ensures descriptor < 0 ==> open == old(open)
      ensures finished == old(finished) - {descriptor}
    {
      descriptor, error := *, *;
      if descriptor in open {
        descriptor := -1;
      } else if descriptor >= 0 {
        open := open + {descriptor};
      }
      finished := finished - {descriptor};
      firstStates := firstStates - {descriptor};
      openAnswer := (pid, descriptor, error);
    }

    /** A descriptor is closed while it is open, so once. */
    method Close(descriptor: int)
      requires descriptor in open
      modifies this`open
      ensures open == old(open) - {descriptor}
    {
      open := open - {descriptor};
    }
  }

  // ---- The table -------------------------------------------------------------------------

  predicate Held(m: Member) {
    m.descriptor >= 0
  }

  function Descriptors(table: seq<Member>): set<int> {
    set i | 0 <= i < |table| && Held(table[i]) :: table[i].descriptor
  }

  /** Held slots differ in descriptor and in identity. */
  predicate Distinct(table: seq<Member>) {
    forall i, j | 0 <= i < j < |table| && Held(table[i]) && Held(table[j]) ::
      table[i].descriptor != table[j].descriptor && (table[i].device != table[j].device || table[i].inode != table[j].inode)
  }

  /** Every open descriptor is held by exactly one slot. */
  predicate TableOk(table: seq<Member>, open: set<int>) {
    |table| == BATCH_CAPACITY && open == Descriptors(table) && Distinct(table)
  }

  predicate HoldsIdentity(table: seq<Member>, device: int, inode: int) {
    exists i :: 0 <= i < |table| && Held(table[i]) && table[i].device == device && table[i].inode == inode
  }

  /** What the kernel's answers about an opened entry mean. */
  function Verdict(read: (nat, ProcessState), probe: nat, identity: (nat, int, int), table: seq<Member>, group: int,
        session: int): Outcome {
    if read.0 != 0 then (if probe == ESRCH then Vanished else Failed(read.0))
    else if read.1.exited then HasExited
    else if read.1.group != group || read.1.session != session then NotOurs(read.1)
    else if identity.0 != 0 then Failed(identity.0)
    else if HoldsIdentity(table, identity.1, identity.2) || exists i :: 0 <= i < |table| && !Held(table[i])
    then Retained(identity.1, identity.2)
    else Unretained
  }

  /** The process was read as a running member of the group and session. */
  predicate ReadAsMember(first: map<int, ProcessState>, descriptor: int, group: int, session: int) {
    descriptor in first && !first[descriptor].exited && first[descriptor].group == group && first[descriptor].session == session
  }

  /** Every retained process was, when it was admitted. */
  predicate AllOurs(table: seq<Member>, first: map<int, ProcessState>, group: int, session: int) {
    forall i | 0 <= i < |table| && Held(table[i]) :: ReadAsMember(first, table[i].descriptor, group, session)
  }

  predicate Extends(first: map<int, ProcessState>, later: map<int, ProcessState>) {
    forall d | d in first :: d in later && later[d] == first[d]
  }

  lemma {:induction false} StillOurs(table: seq<Member>, after: seq<Member>, first: map<int, ProcessState>,
                                     later: map<int, ProcessState>, group: int, session: int)
    requires AllOurs(table, first, group, session) && Extends(first, later) && |after| == |table|
    requires forall i | 0 <= i < |table| && Held(after[i]) :: Held(table[i]) && after[i].descriptor == table[i].descriptor
    ensures AllOurs(after, later, group, session)
  {
  }

  lemma {:induction false} OneMoreOurs(table: seq<Member>, i: nat, m: Member, first: map<int, ProcessState>, group: int, session: int)
    requires AllOurs(table, first, group, session) && i < |table| && ReadAsMember(first, m.descriptor, group, session)
    ensures AllOurs(table[i := m], first, group, session)
  {
  }

  /** What each outcome of an opened entry says about the kernel's answers. */
  predicate Answered(o: Outcome, read: (nat, ProcessState), probe: nat, identity: (nat, int, int), group: int, session: int) {
    && (o.Vanished? <==> read.0 != 0 && probe == ESRCH)
    && (o.HasExited? <==> read.0 == 0 && read.1.exited)
    && (o.NotOurs? <==> read.0 == 0 && !read.1.exited && !(read.1.group == group && read.1.session == session))
    && (o.NotOurs? ==> o.state == read.1)
    && (o.Retained? || o.Unretained? <==>
          read.0 == 0 && !read.1.exited && read.1.group == group && read.1.session == session && identity.0 == 0)
    && (o.Retained? ==> (o.device, o.inode) == (identity.1, identity.2))
    && (o.Failed? ==> o.error == if read.0 != 0 then read.0 else identity.0)
  }

  lemma {:induction false} OpenIsOurs(table: seq<Member>, open: set<int>, first: map<int, ProcessState>, group: int, session: int,
                                      descriptor: int)
    requires TableOk(table, open) && AllOurs(table, first, group, session) && descriptor in open
    ensures ReadAsMember(first, descriptor, group, session)
  {
    assert descriptor in Descriptors(table);
  }

  lemma {:induction false} NoneOpenNoneHeld(table: seq<Member>, open: set<int>)
    requires TableOk(table, open) && open == {}
    ensures forall first, group, session :: AllOurs(table, first, group, session)
  {
    DescriptorsDiffer(table, open);
  }

  /** Opening a descriptor that no slot holds changes nothing for those that are held. */
  lemma {:induction false} OpeningKeepsOurs(table: seq<Member>, open: set<int>, first: map<int, ProcessState>, descriptor: int,
                                            group: int, session: int)
    requires TableOk(table, open) && (descriptor !in open || descriptor < 0) && AllOurs(table, first, group, session)
    ensures AllOurs(table, first - {descriptor}, group, session)
  {
    forall i | 0 <= i < |table| && Held(table[i])
      ensures ReadAsMember(first - {descriptor}, table[i].descriptor, group, session)
    {
      assert table[i].descriptor in Descriptors(table);
    }
  }

  function ErrorOf(o: Outcome): nat {
    if o.Failed? then o.error else 0
  }

  /** No signal was sent meanwhile but the probe, which is signal 0. */
  ghost predicate OnlyProbes(before: multiset<(int, int)>, after: multiset<(int, int)>) {
    forall call | after[call] != before[call] :: call.1 == 0
  }

  lemma {:induction false} NoProbe(sent: multiset<(int, int)>)
    ensures OnlyProbes(sent, sent)
  {
  }

  lemma {:induction false} OneProbe(sent: multiset<(int, int)>, descriptor: int)
    ensures OnlyProbes(sent, sent + multiset{(descriptor, 0)})
  {
  }

  lemma {:induction false} MoreProbes(before: multiset<(int, int)>, between: multiset<(int, int)>, after: multiset<(int, int)>)
    requires OnlyProbes(before, between) && OnlyProbes(between, after)
    ensures OnlyProbes(before, after)
  {
  }

  /** The first error of several answers, where 0 is none. */
  function FirstError(errors: seq<nat>): nat {
    if errors == [] then 0 else if errors[0] != 0 then errors[0] else FirstError(errors[1..])
  }

  function Errors(scan: seq<Finding>): seq<nat> {
    seq(|scan|, k requires 0 <= k < |scan| => ErrorOf(scan[k].outcome))
  }

  lemma {:induction false} FirstOfNone()
    ensures FirstError([]) == 0
  {
  }

  lemma {:induction false} FirstOfMore(errors: seq<nat>, error: nat)
    ensures FirstError(errors + [error]) == if FirstError(errors) != 0 then FirstError(errors) else error
  {
    if errors != [] {
      FirstOfMore(errors[1..], error);
      assert (errors + [error])[1..] == errors[1..] + [error];
    } else {
      assert (errors + [error])[1..] == [];
    }
  }

  lemma {:induction false} FirstOfOne(error: nat)
    ensures FirstError([error] + Errors([])) == error
  {
    FirstOfMore([], error);
    assert [error] + Errors([]) == [] + [error];
  }

  lemma {:induction false} FirstOfScan(checked: nat, scan: seq<Finding>, more: seq<Finding>, error: nat)
    requires |more| == |scan| + 1 && more[..|scan|] == scan && error == ErrorOf(more[|scan|].outcome)
    ensures FirstError([checked] + Errors(more)) ==
      if FirstError([checked] + Errors(scan)) != 0 then FirstError([checked] + Errors(scan)) else error
  {
    FirstOfMore([checked] + Errors(scan), error);
    forall k | 0 <= k < |scan|
      ensures Errors(more)[k] == Errors(scan)[k]
    {
      assert more[..|scan|][k] == scan[k];
    }
    assert [checked] + Errors(more) == [checked] + Errors(scan) + [error];
  }

  /** What an outcome still means for the table. */
  predicate OutcomeOk(o: Outcome, table: seq<Member>, unretained: bool, group: int, session: int) {
    match o
    case Vanished => true
    case HasExited => true
    case NotOurs(state) => state.group != group || state.session != session
    case Retained(device, inode) => HoldsIdentity(table, device, inode)
    case Unretained => unretained
    case Failed(_) => false
  }

  predicate ScanOk(scan: seq<Finding>, table: seq<Member>, unretained: bool, group: int, session: int) {
    forall k | 0 <= k < |scan| :: OutcomeOk(scan[k].outcome, table, unretained, group, session)
  }

  lemma {:induction false} RetireKeeps(table: seq<Member>, open: set<int>, i: nat)
    requires TableOk(table, open) && i < |table| && Held(table[i])
    ensures table[i].descriptor in open && TableOk(table[i := FREE], open - {table[i].descriptor})
  {
    var after := table[i := FREE];
    forall d
      ensures d in Descriptors(after) <==> d in open && d != table[i].descriptor
    {
      if d in open && d != table[i].descriptor {
        var j :| 0 <= j < |table| && Held(table[j]) && table[j].descriptor == d;
        assert Held(after[j]);
      }
    }
  }

  lemma {:induction false} FillKeeps(table: seq<Member>, open: set<int>, i: nat, m: Member)
    requires TableOk(table, open) && i < |table| && !Held(table[i]) && Held(m) && m.descriptor !in open
    requires !HoldsIdentity(table, m.device, m.inode)
    ensures TableOk(table[i := m], open + {m.descriptor})
  {
    var after := table[i := m];
    assert after[i] == m;
    forall d
      ensures d in Descriptors(after) <==> d in open || d == m.descriptor
    {
      if d in open {
        var j :| 0 <= j < |table| && Held(table[j]) && table[j].descriptor == d;
        assert Held(after[j]);
      }
    }
    forall j | 0 <= j < |table| && Held(table[j])
      ensures table[j].descriptor != m.descriptor && (table[j].device != m.device || table[j].inode != m.inode)
    {
      assert table[j].descriptor in Descriptors(table);
    }
  }

  /** Filling a free slot takes no retained process away. */
  lemma {:induction false} FillKeepsScan(scan: seq<Finding>, table: seq<Member>, unretained: bool, group: int,
        session: int, i: nat, m: Member)
    requires ScanOk(scan, table, unretained, group, session) && i < |table| && !Held(table[i]) && Held(m)
    ensures ScanOk(scan, table[i := m], unretained, group, session) && HoldsIdentity(table[i := m], m.device, m.inode)
  {
    var after := table[i := m];
    assert after[i] == m;
    forall k | 0 <= k < |scan|
      ensures OutcomeOk(scan[k].outcome, after, unretained, group, session)
    {
      assert OutcomeOk(scan[k].outcome, table, unretained, group, session);
      if scan[k].outcome.Retained? {
        var j :| 0 <= j < |table| && Held(table[j]) && table[j].device == scan[k].outcome.device && table[j].inode == scan[k].outcome.inode;
        assert after[j] == table[j];
      }
    }
  }

  lemma {:induction false} SameIdentities(scan: seq<Finding>, table: seq<Member>, after: seq<Member>, unretained: bool,
        group: int, session: int)
    requires ScanOk(scan, table, unretained, group, session) && |after| == |table|
    requires forall i | 0 <= i < |table| && Held(table[i]) ::
      Held(after[i]) && after[i].device == table[i].device && after[i].inode == table[i].inode
    ensures ScanOk(scan, after, unretained, group, session)
  {
    forall k | 0 <= k < |scan|
      ensures OutcomeOk(scan[k].outcome, after, unretained, group, session)
    {
      assert OutcomeOk(scan[k].outcome, table, unretained, group, session);
      if scan[k].outcome.Retained? {
        var j :| 0 <= j < |table| && Held(table[j]) && table[j].device == scan[k].outcome.device && table[j].inode == scan[k].outcome.inode;
        assert Held(after[j]);
      }
    }
  }

  /** An entry of the directory: the number its name is, where it is one. */
  datatype Entry = Entry(pid: Option<int>)

  predicate IsProcess(e: Entry) {
    e.pid.Some? && e.pid.value > 1
  }

  /** The processes a directory lists, in order. */
  function Processes(entries: seq<Entry>): seq<int> {
    if entries == [] then []
    else if IsProcess(entries[|entries| - 1]) then Processes(entries[..|entries| - 1]) + [entries[|entries| - 1].pid.value]
    else Processes(entries[..|entries| - 1])
  }

  /** A listed process is one of them, and only such are. */
  lemma {:induction false} ProcessesAre(entries: seq<Entry>, pid: int)
    ensures pid in Processes(entries) <==> Entry(Some(pid)) in entries && pid > 1
  {
    if entries != [] {
      var front, last := entries[..|entries| - 1], entries[|entries| - 1];
      ProcessesAre(front, pid);
      assert entries == front + [last];
    }
  }

  /** The scan has one finding for each process, in the directory's order. */
  predicate FindingsOf(scan: seq<Finding>, pids: seq<int>) {
    |scan| == |pids| && forall k | 0 <= k < |scan| :: scan[k].pid == pids[k]
  }

  /** A process that is gone, has exited, or is not in the group's session. */
  predicate Foreign(o: Outcome, group: int, session: int) {
    o.Vanished? || o.HasExited? || (o.NotOurs? && (o.state.group != group || o.state.session != session))
  }

  // ---- The custody object ----------------------------------------------------------------

  class Custody {
    const kernel: Kernel
    const members: array<Member>
    const prepareError: nat
    var processGroup: int
    var session: int
    var refreshComplete: bool
    var unretainedMembers: bool

    /** The directory as the last scan read it, whether it read all of it, and what
        it found out about each process listed. */
    ghost var listing: seq<Entry>
    ghost var listingError: nat
    ghost var scan: seq<Finding>

    /** The error, if any, met in reading the processes retained before the scan. */
    ghost var checkError: nat

    ghost predicate Valid()
      reads this, members, kernel
    {
      && TableOk(members[..], kernel.open) && kernel.open !! kernel.finished
      && AllOurs(members[..], kernel.firstStates, processGroup, session)
      && (processGroup <= 1 ==> kernel.open == {})
      && (refreshComplete ==>
            && listingError == 0 && FindingsOf(scan, Processes(listing))
            && ScanOk(scan, members[..], unretainedMembers, processGroup, session))
    }

    constructor (kernel: Kernel, prepareError: nat)
      requires kernel.open == {}
      ensures Valid() && this.kernel == kernel && fresh(members) && !refreshComplete && !unretainedMembers
      ensures processGroup == session == -1
      ensures this.prepareError == prepareError
    {
      this.kernel, this.prepareError := kernel, prepareError;
      members := new Member[BATCH_CAPACITY](_ => FREE);
      processGroup, session := -1, -1;
      refreshComplete, unretainedMembers := false, false;
      listing, listingError, scan, checkError := [], 0, [], 0;
      new;
      assert Descriptors(members[..]) == {};
    }

    /** Closes a slot's descriptor and frees the slot. */
    method Retire(i: nat)
      requires TableOk(members[..], kernel.open) && i < members.Length
      modifies members, kernel`open
      ensures TableOk(members[..], kernel.open) && members[..] == old(members[..])[i := FREE]
      ensures kernel.open == old(kernel.open) - {old(members[i].descriptor)} || kernel.open == old(kernel.open)
      ensures old(Held(members[i])) ==> kernel.open == old(kernel.open) - {old(members[i].descriptor)}
    {
      hide TableOk;
      TableSize(members[..], kernel.open);
      if members[i].descriptor >= 0 {
        RetireKeeps(members[..], kernel.open, i);
        kernel.Close(members[i].descriptor);
      } else {
        FreeStaysFree(members[..], kernel.open, i);
      }
      members[i] := FREE;
      assert members[..] == old(members[..])[i := FREE];
    }

    /** Lets go of everything. */
    method Destroy()
      requires Valid()
      modifies members, kernel
      ensures kernel.open == {}
    {
      hide TableOk;
      var i := 0;
      TableSize(members[..], kernel.open);
      while i < members.Length
        invariant 0 <= i <= members.Length == BATCH_CAPACITY && TableOk(members[..], kernel.open)
        invariant forall j | 0 <= j < i :: !Held(members[j])
      {
        Retire(i);
        i := i + 1;
      }
      NoneHeld(members[..], kernel.open);
    }

    method Capture(group: int, retainedSession: int, ownGroup: int, entries: seq<Entry>, endError: nat) returns (error: nat)
      requires Valid()
      modifies this, members, kernel
      ensures Valid()
      ensures old(processGroup) > 0 ==> error == EALREADY && processGroup == old(processGroup)
      ensures old(processGroup) <= 0 ==>
        if group <= 1 || retainedSession <= 1 || group == ownGroup then error == EINVAL && processGroup == old(processGroup)
        else processGroup == group && session == retainedSession && (refreshComplete <==> error == 0)
    {
      if processGroup > 0 {
        return EALREADY;
      }
      if group <= 1 || retainedSession <= 1 || group == ownGroup {
        return EINVAL;
      }
      NoneOpenNoneHeld(members[..], kernel.open);
      processGroup, session, refreshComplete := group, retainedSession, false;
      error := Refresh(entries, endError);
    }

    /** Lets go of exactly the members that turn out to have exited or to be gone. */
    method RetireFinished() returns (result: nat, ghost errors: seq<nat>)
      requires TableOk(members[..], kernel.open) && kernel.open !! kernel.finished
      modifies members, kernel`open, kernel`finished, kernel`read, kernel`probe, kernel`readCounts, kernel`sent,
               kernel`accepted, kernel`firstStates, kernel`lastErrors
      ensures Extends(old(kernel.firstStates), kernel.firstStates)
      ensures TableOk(members[..], kernel.open) && kernel.open !! kernel.finished
      ensures forall i | 0 <= i < members.Length && old(Held(members[i])) ::
        kernel.readCounts[old(members[i].descriptor)] == old(kernel.readCounts)[old(members[i].descriptor)] + 1
      ensures forall i | 0 <= i < members.Length && old(Held(members[i])) ::
        members[i] == if old(members[i].descriptor) in kernel.finished then FREE else old(members[i])
      ensures forall i | 0 <= i < members.Length && !old(Held(members[i])) :: members[i] == old(members[i])
      ensures OnlyProbes(old(kernel.sent), kernel.sent)
      ensures |errors| == members.Length && result == FirstError(errors)
      ensures forall i | 0 <= i < members.Length && !Held(members[i]) :: errors[i] == 0
      ensures forall i | 0 <= i < members.Length && Held(members[i]) ::
        members[i].descriptor in kernel.lastErrors && errors[i] == kernel.lastErrors[members[i].descriptor]
    {
      hide TableOk, AllChecked, FirstError, OnlyProbes;
      result, errors := 0, [];
      NoProbe(kernel.sent);
      FirstOfNone();
      TableSize(members[..], kernel.open);
      ghost var before, readsBefore := members[..], kernel.readCounts;
      DescriptorsDiffer(before, kernel.open);
      NoneChecked(before, readsBefore, kernel.finished, kernel.open);
      var i := 0;
      while i < members.Length
        invariant 0 <= i <= members.Length == |before| && TableOk(members[..], kernel.open)
        invariant kernel.open !! kernel.finished
        invariant AllChecked(before, members[..], i, readsBefore, kernel.readCounts, kernel.finished)
        invariant Extends(old(kernel.firstStates), kernel.firstStates)
        invariant |errors| == i && result == FirstError(errors) && OnlyProbes(old(kernel.sent), kernel.sent)
        invariant forall j | 0 <= j < i && !Held(members[j]) :: errors[j] == 0
        invariant forall j | 0 <= j < i && Held(members[j]) ::
          members[j].descriptor in kernel.lastErrors && errors[j] == kernel.lastErrors[members[j].descriptor]
      {
        ghost var table, readCounts, finished := members[..], kernel.readCounts, kernel.finished;
        DescriptorsDiffer(table, kernel.open);
        NotYetChecked(before, table, i, readsBefore, readCounts, finished);
        if members[i].descriptor >= 0 {
          ghost var sent := kernel.sent;
          var error := CheckMember(i);
          MoreProbes(old(kernel.sent), sent, kernel.sent);
          if error != 0 && result == 0 {
            result := error;
          }
          FirstOfMore(errors, error);
          errors := errors + [error];
          OneChecked(before, table, members[..], i, readsBefore, readCounts, kernel.readCounts, finished, kernel.finished);
        } else {
          FirstOfMore(errors, 0);
          errors := errors + [0];
          FreeChecked(before, table, i, readsBefore, readCounts, finished);
        }
        i := i + 1;
      }
      AllCheckedMeans(before, members[..], i, readsBefore, kernel.readCounts, kernel.finished);
    }

    /** Reads one member's state and lets go of it when it is finished. */
    method CheckMember(i: nat) returns (error: nat)
      requires TableOk(members[..], kernel.open) && kernel.open !! kernel.finished && i < members.Length && Held(members[i])
      modifies members, kernel`open, kernel`finished, kernel`read, kernel`probe, kernel`readCounts, kernel`sent,
               kernel`accepted, kernel`firstStates, kernel`lastErrors
      ensures Extends(old(kernel.firstStates), kernel.firstStates)
      ensures TableOk(members[..], kernel.open) && kernel.open !! kernel.finished
      ensures kernel.readCounts == old(kernel.readCounts) + multiset{old(members[i].descriptor)}
      ensures kernel.finished == old(kernel.finished) || kernel.finished == old(kernel.finished) + {old(members[i].descriptor)}
      ensures members[..] == old(members[..])[i := if old(members[i].descriptor) in kernel.finished then FREE else old(members[i])]
      ensures kernel.lastErrors == old(kernel.lastErrors)[old(members[i].descriptor) := kernel.read.0]
      ensures error == if Held(members[i]) then kernel.read.0 else 0
      ensures OnlyProbes(old(kernel.sent), kernel.sent)
      ensures !Held(members[i]) <==> if kernel.read.0 == 0 then kernel.read.1.exited else kernel.probe == ESRCH
    {
      hide TableOk, OnlyProbes;
      HeldIsOpen(members[..], kernel.open, i);
      NoProbe(kernel.sent);
      OneProbe(kernel.sent, members[i].descriptor);
      var state;
      error, state := kernel.ReadState(members[i].descriptor);
      var gone := false;
      if error != 0 {
        var probe := kernel.SignalDescriptor(members[i].descriptor, 0);
        gone := probe == ESRCH;
      }
      if (error == 0 && state.exited) || gone {
        Retire(i);
        error := 0;
      } else {
        assert members[..] == members[..][i := members[i]];
      }
    }

    method Refresh(entries: seq<Entry>, endError: nat) returns (result: nat)
      requires Valid()
      modifies this, members, kernel
      ensures Valid() && processGroup == old(processGroup) && session == old(session)
      ensures OnlyProbes(old(kernel.sent), kernel.sent)
      ensures refreshComplete <==> result == 0
      ensures result == 0 ==> endError == 0 && listing == entries
      ensures prepareError == 0 && processGroup > 1 ==>
        result == FirstError([checkError] + Errors(scan) + [endError]) && listing == entries && FindingsOf(scan, Processes(entries))
      ensures result == 0 ==> forall i | 0 <= i < members.Length && old(Held(members[i])) ::
        kernel.readCounts[old(members[i].descriptor)] > old(kernel.readCounts)[old(members[i].descriptor)]
    {
      hide TableOk, ScanOk, AllOurs, FirstError, Errors, OnlyProbes;
      NoProbe(kernel.sent);
      refreshComplete := false;
      unretainedMembers := false;
      if prepareError != 0 {
        return prepareError;
      }
      if processGroup <= 1 {
        return EINVAL;
      }
      ghost var before, first := members[..], kernel.firstStates;
      ghost var errors: seq<nat>;
      result, errors := RetireFinished();
      checkError := result;
      StillOurs(before, members[..], first, kernel.firstStates, processGroup, session);
      listingError := endError;
      ghost var sent := kernel.sent;
      result := ScanDirectory(entries, result);
      MoreProbes(old(kernel.sent), sent, kernel.sent);
      FirstOfMore([checkError] + Errors(scan), endError);
      if result == 0 {
        result := endError;
      }
      refreshComplete := result == 0;
    }

    /** Reads the directory's entries in order; `checked` is the error met before. */
    method ScanDirectory(entries: seq<Entry>, checked: nat) returns (result: nat)
      requires TableOk(members[..], kernel.open) && kernel.open !! kernel.finished
      requires AllOurs(members[..], kernel.firstStates, processGroup, session) && !unretainedMembers
      modifies this`listing, this`scan, this`unretainedMembers, members, kernel
      ensures TableOk(members[..], kernel.open) && kernel.open !! kernel.finished
      ensures AllOurs(members[..], kernel.firstStates, processGroup, session)
      ensures old(kernel.readCounts) <= kernel.readCounts
      ensures OnlyProbes(old(kernel.sent), kernel.sent)
      ensures listing == entries && FindingsOf(scan, Processes(entries))
      ensures result == FirstError([checked] + Errors(scan))
      ensures result == 0 ==> ScanOk(scan, members[..], unretainedMembers, processGroup, session)
    {
      hide TableOk, ScanOk, AllOurs, FirstError, Errors, OnlyProbes;
      NoProbe(kernel.sent);
      listing, scan, result := entries, [], checked;
      NothingScanned(members[..], processGroup, session);
      FirstOfOne(checked);
      var k := 0;
      while k < |entries|
        invariant 0 <= k <= |entries| && TableOk(members[..], kernel.open) && listing == entries
        invariant kernel.open !! kernel.finished && old(kernel.readCounts) <= kernel.readCounts
        invariant AllOurs(members[..], kernel.firstStates, processGroup, session)
        invariant FindingsOf(scan, Processes(entries[..k])) && OnlyProbes(old(kernel.sent), kernel.sent)
        invariant result == 0 ==> ScanOk(scan, members[..], unretainedMembers, processGroup, session)
        invariant result == FirstError([checked] + Errors(scan))
      {
        assert entries[..k + 1][..k] == entries[..k];
        if IsProcess(entries[k]) {
          ghost var found, sent := scan, kernel.sent;
          var error := ScanEntry(entries[k].pid.value, result == 0);
          MoreProbes(old(kernel.sent), sent, kernel.sent);
          if error != 0 && result == 0 {
            result := error;
          }
          FirstOfScan(checked, found, scan, error);
        }
        k := k + 1;
      }
      assert entries[..k] == entries;
    }

    /** One process entry of a scan; `ok` tells whether the scan had no error so far. */
    method ScanEntry(pid: int, ghost ok: bool) returns (error: nat)
      requires TableOk(members[..], kernel.open) && kernel.open !! kernel.finished
      requires AllOurs(members[..], kernel.firstStates, processGroup, session)
      requires ok ==> ScanOk(scan, members[..], unretainedMembers, processGroup, session)
      modifies this`scan, this`unretainedMembers, members, kernel
      ensures TableOk(members[..], kernel.open) && kernel.open !! kernel.finished
      ensures AllOurs(members[..], kernel.firstStates, processGroup, session)
      ensures old(kernel.readCounts) <= kernel.readCounts && OnlyProbes(old(kernel.sent), kernel.sent)
      ensures |scan| == |old(scan)| + 1 && scan[..|old(scan)|] == old(scan)
      ensures scan[|old(scan)|].pid == kernel.openAnswer.0 == pid && error == ErrorOf(scan[|old(scan)|].outcome)
      ensures scan[|old(scan)|].outcome ==
        if kernel.openAnswer.1 < 0
        then (if kernel.openAnswer.2 in {0, ENOENT, ESRCH} then Vanished else Failed(kernel.openAnswer.2))
        else Verdict(kernel.read, kernel.probe, kernel.identity, old(members[..]), processGroup, session)
      ensures kernel.openAnswer.1 >= 0 ==>
        Answered(scan[|old(scan)|].outcome, kernel.read, kernel.probe, kernel.identity, processGroup, session)
      ensures ok && error == 0 ==> ScanOk(scan, members[..], unretainedMembers, processGroup, session)
    {
      hide TableOk, ScanOk, Verdict, AllOurs, Answered, OnlyProbes;
      NoProbe(kernel.sent);
      ghost var table, open, first := members[..], kernel.open, kernel.firstStates;
      var descriptor, openError := kernel.OpenEntry(pid);
      ghost var outcome: Outcome;
      OpeningKeepsOurs(table, open, first, descriptor, processGroup, session);
      if descriptor < 0 {
        error := if openError != ENOENT && openError != ESRCH then openError else 0;
        outcome := if error == 0 then Vanished else Failed(error);
      } else {
        assert kernel.open - {descriptor} == old(kernel.open);
        error, outcome := Admit(descriptor, ok);
      }
      if ok && error == 0 {
        OneMoreOutcome(scan, Finding(pid, outcome), members[..], unretainedMembers, processGroup, session);
      }
      scan := scan + [Finding(pid, outcome)];
    }

    /** Reads a process's state; where that fails, one that turns out to be gone is no error. */
    method ReadOrProbe(descriptor: int) returns (error: nat, state: Option<ProcessState>)
      requires descriptor in kernel.open && descriptor !in kernel.firstStates
      modifies kernel`finished, kernel`read, kernel`probe, kernel`readCounts, kernel`sent, kernel`accepted, kernel`firstStates,
               kernel`lastErrors
      ensures state == if kernel.read.0 == 0 then Some(kernel.read.1) else None
      ensures error == if kernel.read.0 == 0 || kernel.probe == ESRCH then 0 else kernel.read.0
      ensures Extends(old(kernel.firstStates), kernel.firstStates)
      ensures state.Some? ==> descriptor in kernel.firstStates && kernel.firstStates[descriptor] == state.value
      ensures kernel.finished == old(kernel.finished) || kernel.finished == old(kernel.finished) + {descriptor}
      ensures state.Some? && !state.value.exited ==> kernel.finished == old(kernel.finished)
      ensures old(kernel.readCounts) <= kernel.readCounts && OnlyProbes(old(kernel.sent), kernel.sent)
    {
      hide OnlyProbes;
      NoProbe(kernel.sent);
      OneProbe(kernel.sent, descriptor);
      var answer;
      error, answer := kernel.ReadState(descriptor);
      state := if error == 0 then Some(answer) else None;
      if error != 0 {
        var probe := kernel.SignalDescriptor(descriptor, 0);
        if probe == ESRCH {
          error := 0;
        }
      }
    }

    /** Takes over a descriptor: it ends up in a slot or closed. */
    method Admit(descriptor: int, ghost ok: bool) returns (error: nat, ghost outcome: Outcome)
      requires descriptor >= 0 && descriptor in kernel.open && TableOk(members[..], kernel.open - {descriptor})
      requires kernel.open !! kernel.finished && descriptor !in kernel.firstStates
      requires AllOurs(members[..], kernel.firstStates, processGroup, session)
      requires ok ==> ScanOk(scan, members[..], unretainedMembers, processGroup, session)
      modifies this`unretainedMembers, members, kernel`open, kernel`finished, kernel`read, kernel`probe, kernel`identity,
               kernel`readCounts, kernel`sent, kernel`accepted, kernel`firstStates, kernel`lastErrors
      ensures AllOurs(members[..], kernel.firstStates, processGroup, session)
      ensures Answered(outcome, kernel.read, kernel.probe, kernel.identity, processGroup, session)
      ensures old(kernel.readCounts) <= kernel.readCounts && OnlyProbes(old(kernel.sent), kernel.sent)
      ensures TableOk(members[..], kernel.open) && kernel.open !! kernel.finished
      ensures outcome == Verdict(kernel.read, kernel.probe, kernel.identity, old(members[..]), processGroup, session)
      ensures error == ErrorOf(outcome)
      ensures error == 0 ==> OutcomeOk(outcome, members[..], unretainedMembers, processGroup, session)
      ensures ok ==> ScanOk(scan, members[..], unretainedMembers, processGroup, session)
      ensures old(unretainedMembers) ==> unretainedMembers
    {
      hide TableOk, ScanOk, AllOurs, OnlyProbes, Extends;
      ghost var first := kernel.firstStates;
      var answer;
      error, answer := ReadOrProbe(descriptor);
      StillOurs(members[..], members[..], first, kernel.firstStates, processGroup, session);
      if answer.None? {
        outcome := if error == 0 then Vanished else Failed(error);
        kernel.Close(descriptor);
        return;
      }
      var state := answer.value;
      if state.exited || state.group != processGroup || state.session != session {
        outcome := if state.exited then HasExited else NotOurs(state);
        kernel.Close(descriptor);
        return;
      }
      var device, inode;
      error, device, inode := kernel.Identify(descriptor);
      if error != 0 {
        outcome := Failed(error);
        kernel.Close(descriptor);
        return;
      }
      ghost var retained := Retain(descriptor, device, inode, ok);
      outcome := if retained then Retained(device, inode) else Unretained;
    }

    /** Gives a member's descriptor a slot, unless there is one for its process or none is free. */
    method Retain(descriptor: int, device: int, inode: int, ghost ok: bool) returns (ghost retained: bool)
      requires descriptor >= 0 && descriptor in kernel.open && TableOk(members[..], kernel.open - {descriptor})
      requires kernel.open !! kernel.finished
      requires AllOurs(members[..], kernel.firstStates, processGroup, session)
      requires ReadAsMember(kernel.firstStates, descriptor, processGroup, session)
      requires ok ==> ScanOk(scan, members[..], unretainedMembers, processGroup, session)
      modifies this`unretainedMembers, members, kernel`open
      ensures TableOk(members[..], kernel.open) && kernel.open !! kernel.finished
      ensures AllOurs(members[..], kernel.firstStates, processGroup, session)
      ensures retained <==> old(HoldsIdentity(members[..], device, inode)) || exists i :: 0 <= i < members.Length && !old(Held(members[i]))
      ensures retained ==> HoldsIdentity(members[..], device, inode)
      ensures !retained ==> unretainedMembers
      ensures ok ==> ScanOk(scan, members[..], unretainedMembers, processGroup, session)
      ensures old(unretainedMembers) ==> unretainedMembers
    {
      hide TableOk, ScanOk, AllOurs;
      TableSize(members[..], kernel.open - {descriptor});
      var found, available := FindSlot(device, inode);
      retained := found || available.Some?;
      if found {
        kernel.Close(descriptor);
        return;
      }
      if available.None? {
        unretainedMembers := true;
        StillOk(scan, members[..], old(unretainedMembers), processGroup, session, ok);
        kernel.Close(descriptor);
        return;
      }
      ghost var table, m := members[..], Member(descriptor, members[available.value].lastSignal, device, inode);
      FillKeeps(table, kernel.open - {descriptor}, available.value, m);
      if ok {
        FillKeepsScan(scan, table, unretainedMembers, processGroup, session, available.value, m);
      }
      Fills(table, available.value, m);
      OneMoreOurs(table, available.value, m, kernel.firstStates, processGroup, session);
      assert kernel.open - {descriptor} + {descriptor} == kernel.open;
      assert !Held(table[available.value]);
      members[available.value] := Member(descriptor, members[available.value].lastSignal, device, inode);
      assert members[..] == table[available.value := m];
    }

    /** Looks for a slot that holds an identity, and for the first free one before it. */
    method FindSlot(device: int, inode: int) returns (found: bool, available: Option<nat>)
      requires members.Length == BATCH_CAPACITY
      ensures found <==> HoldsIdentity(members[..], device, inode)
      ensures !found ==> match available
                         case None => forall i | 0 <= i < members.Length :: Held(members[i])
                         case Some(i) => i < members.Length && !Held(members[i]) && forall j | 0 <= j < i :: Held(members[j])
    {
      available := None;
      var i := 0;
      while i < members.Length
        invariant 0 <= i <= members.Length
        invariant forall j | 0 <= j < i && Held(members[j]) :: members[j].device != device || members[j].inode != inode
        invariant match available
                  case None => forall j | 0 <= j < i :: Held(members[j])
                  case Some(a) => a < i && !Held(members[a]) && forall j | 0 <= j < a :: Held(members[j])
      {
        if members[i].descriptor >= 0 && members[i].device == device && members[i].inode == inode {
          assert Held(members[..][i]);
          return true, available;
        }
        if members[i].descriptor < 0 && available.None? {
          available := Some(i);
        }
        i := i + 1;
      }
      found := false;
    }

    /** Signals each retained process once per signal. */
    method SignalMembers(signal: int) returns (result: nat)
      requires Valid()
      modifies this`refreshComplete, members, kernel
      ensures Valid() && (refreshComplete ==> old(refreshComplete) && (0 < signal < NSIG ==> result == 0))
      ensures 0 < signal < NSIG ==>
        && (result == 0 <==> !SomeLeft(members[..], signal, members.Length))
        && (refreshComplete <==> old(refreshComplete) && result == 0 && !SomeGone(old(members[..]), members[..]))
      ensures signal <= 0 || signal >= NSIG ==> result == EINVAL && members[..] == old(members[..])
      ensures result == 0 ==> forall i | 0 <= i < members.Length && Held(members[i]) :: members[i].lastSignal == signal
      ensures forall i | 0 <= i < members.Length :: members[i] == old(members[i]) || members[i] == FREE
                || members[i] == old(members[i]).(lastSignal := signal)
      ensures forall i | 0 <= i < members.Length && old(members[i]).lastSignal == signal :: members[i] == old(members[i])
      ensures forall i | 0 <= i < members.Length && old(Held(members[i])) && !Held(members[i]) ::
        old(members[i].descriptor) in kernel.finished
      ensures forall i | 0 <= i < members.Length && old(Held(members[i])) ::
        var call := (old(members[i].descriptor), signal);
        && kernel.sent[call] == old(kernel.sent)[call] + (if 0 < signal < NSIG && old(members[i].lastSignal) != signal then 1 else 0)
        && (Held(members[i]) && old(members[i].lastSignal) != signal && members[i].lastSignal == signal ==> call in kernel.accepted)
      ensures forall call | kernel.sent[call] != old(kernel.sent)[call] ::
        call.1 == signal && call.0 in old(kernel.open) && ReadAsMember(kernel.firstStates, call.0, processGroup, session)
      ensures kernel.firstStates == old(kernel.firstStates)
    {
      hide TableOk, ScanOk, AllSlots, Signalled, AllOurs, SomeLeft, SomeGone;
      if signal <= 0 || signal >= NSIG {
        return EINVAL;
      }
      TableSize(members[..], kernel.open);
      ghost var before, sentBefore := members[..], kernel.sent;
      result := SignalEach(signal);
      if result == 0 {
        NoneLeft(before, members[..], signal, members.Length, refreshComplete, sentBefore, kernel.sent, kernel.accepted,
                 kernel.finished);
      }
      SlotsMean(before, members[..], signal, members.Length, result == 0, refreshComplete, sentBefore, kernel.sent, kernel.accepted,
                kernel.finished);
      if result != 0 {
        refreshComplete := false;
      }
      StillOurs(before, members[..], kernel.firstStates, kernel.firstStates, processGroup, session);
      forall call | kernel.sent[call] != sentBefore[call]
        ensures ReadAsMember(kernel.firstStates, call.0, processGroup, session)
      {
        OpenIsOurs(before, old(kernel.open), kernel.firstStates, processGroup, session, call.0);
      }
      if refreshComplete {
        SameIdentities(scan, before, members[..], unretainedMembers, processGroup, session);
      }
    }

    /** Signals the retained processes slot by slot. */
    method SignalEach(signal: int) returns (result: nat)
      requires TableOk(members[..], kernel.open) && kernel.open !! kernel.finished
      modifies this`refreshComplete, members, kernel`open, kernel`probe, kernel`finished, kernel`sent, kernel`accepted
      ensures TableOk(members[..], kernel.open) && kernel.open !! kernel.finished
      ensures result != 0 ==> SomeLeft(members[..], signal, members.Length)
      ensures refreshComplete <==> old(refreshComplete) && !SomeGone(old(members[..]), members[..])
      ensures kernel.open <= old(kernel.open)
      ensures forall call | kernel.sent[call] != old(kernel.sent)[call] :: call.1 == signal && call.0 in old(kernel.open)
      ensures AllSlots(old(members[..]), members[..], signal, members.Length, result == 0, refreshComplete, old(kernel.sent),
                       kernel.sent, kernel.accepted, kernel.finished)
    {
      hide TableOk, AllSlots, Signalled, SomeLeft, SomeGone;
      result := 0;
      TableSize(members[..], kernel.open);
      ghost var before, sentBefore := members[..], kernel.sent;
      DescriptorsDiffer(before, kernel.open);
      NoSlotsYet(before, signal, sentBefore, kernel.accepted, kernel.finished);
      NoneGone(before);
      var i := 0;
      while i < members.Length
        invariant 0 <= i <= members.Length == |before| && TableOk(members[..], kernel.open)
        invariant kernel.open !! kernel.finished && (result != 0 ==> SomeLeft(members[..], signal, i))
        invariant refreshComplete <==> old(refreshComplete) && !SomeGone(before, members[..])
        invariant kernel.open <= old(kernel.open)
        invariant forall call | kernel.sent[call] != sentBefore[call] :: call.1 == signal && call.0 in old(kernel.open)
        invariant AllSlots(before, members[..], signal, i, result == 0, refreshComplete, sentBefore, kernel.sent, kernel.accepted,
                           kernel.finished)
      {
        ghost var table := members[..];
        SlotUntouched(before, table, signal, i, result == 0, refreshComplete, sentBefore, kernel.sent, kernel.accepted, kernel.finished);
        if members[i].descriptor >= 0 && members[i].lastSignal != signal {
          ghost var sent, accepted, finished, complete, clean := kernel.sent, kernel.accepted, kernel.finished, refreshComplete, result == 0;
          var error := SignalMember(i, signal);
          if error == ESRCH {
            refreshComplete := false;
          } else if error != 0 && result == 0 {
            result := error;
          }
          SlotLeft(before, table, i, members[..], signal);
          SlotSignalled(before, table, members[..], signal, i, clean, result == 0, complete, refreshComplete, error, sentBefore, sent,
                        kernel.sent, accepted, kernel.accepted, finished, kernel.finished);
        } else {
          SlotLeft(before, table, i, table, signal);
          SlotSkipped(before, table, signal, i, result == 0, refreshComplete, sentBefore, kernel.sent, kernel.accepted, kernel.finished);
        }
        i := i + 1;
      }
    }

    /** Signals one retained process; one that is gone is let go. */
    method SignalMember(i: nat, signal: int) returns (error: nat)
      requires TableOk(members[..], kernel.open) && kernel.open !! kernel.finished
      requires i < members.Length && Held(members[i])
      modifies members, kernel`open, kernel`probe, kernel`finished, kernel`sent, kernel`accepted
      ensures TableOk(members[..], kernel.open) && kernel.open !! kernel.finished
      ensures members[..] == old(members[..])[i := AfterSignal(old(members[i]), signal, error)]
      ensures old(members[i].descriptor) in old(kernel.open) && kernel.open <= old(kernel.open)
      ensures kernel.sent == old(kernel.sent) + multiset{(old(members[i].descriptor), signal)}
      ensures kernel.accepted == old(kernel.accepted) + if error == 0 then {(old(members[i].descriptor), signal)} else {}
      ensures kernel.finished == old(kernel.finished) + if error == ESRCH then {old(members[i].descriptor)} else {}
    {
      hide TableOk;
      HeldIsOpen(members[..], kernel.open, i);
      error := kernel.SignalDescriptor(members[i].descriptor, signal);
      if error == 0 {
        Relabel(members[..], kernel.open, i, signal);
        ghost var table := members[..];
        members[i] := members[i].(lastSignal := signal);
        assert members[..] == table[i := table[i].(lastSignal := signal)];
      } else if error == ESRCH {
        Retire(i);
      } else {
        assert members[..] == members[..][i := members[i]];
      }
    }

    /** True only when the last scan read the whole directory, every process listed is
        gone, has exited or is foreign, and nothing is retained; and then always. */
    method Empty() returns (empty: bool)
      requires Valid()
      ensures empty <==> refreshComplete && !unretainedMembers && kernel.open == {}
      ensures empty ==> listingError == 0 && FindingsOf(scan, Processes(listing))
      ensures empty ==> forall k | 0 <= k < |scan| :: Foreign(scan[k].outcome, processGroup, session)
      ensures empty ==> forall pid | pid > 1 && Entry(Some(pid)) in listing ::
        exists k :: 0 <= k < |scan| && scan[k].pid == pid && Foreign(scan[k].outcome, processGroup, session)
    {
      if !refreshComplete || unretainedMembers {
        return false;
      }
      var i := 0;
      while i < members.Length
        invariant 0 <= i <= members.Length && forall j | 0 <= j < i :: !Held(members[j])
      {
        if members[i].descriptor >= 0 {
          HeldIsOpen(members[..], kernel.open, i);
          return false;
        }
        i := i + 1;
      }
      NoneHeld(members[..], kernel.open);
      EmptyScan(scan, members[..], processGroup, session);
      forall pid | pid > 1 && Entry(Some(pid)) in listing
        ensures exists k :: 0 <= k < |scan| && scan[k].pid == pid && Foreign(scan[k].outcome, processGroup, session)
      {
        ProcessesAre(listing, pid);
        var k :| 0 <= k < |Processes(listing)| && Processes(listing)[k] == pid;
        assert scan[k].pid == pid;
      }
      empty := true;
    }
  }

  /** A slot before and after it was checked; `turn` tells whether it was. */
  predicate Checked(before: Member, after: Member, turn: bool, readsBefore: multiset<int>, readCounts: multiset<int>,
        finished: set<int>) {
    if !Held(before) then after == before
    else
      && readCounts[before.descriptor] == readsBefore[before.descriptor] + (if turn then 1 else 0)
      && after == (if before.descriptor in finished then FREE else before)
      && (!turn ==> before.descriptor !in finished)
  }

  predicate AllChecked(before: seq<Member>, now: seq<Member>, count: nat, readsBefore: multiset<int>,
        readCounts: multiset<int>, finished: set<int>) {
    |now| == |before| && forall j | 0 <= j < |before| :: Checked(before[j], now[j], j < count, readsBefore, readCounts, finished)
  }

  lemma {:induction false} NoneChecked(before: seq<Member>, readCounts: multiset<int>, finished: set<int>, open: set<int>)
    requires open !! finished && forall j | 0 <= j < |before| && Held(before[j]) :: before[j].descriptor in open
    ensures AllChecked(before, before, 0, readCounts, readCounts, finished)
  {
  }

  lemma {:induction false} NotYetChecked(before: seq<Member>, now: seq<Member>, i: nat, readsBefore: multiset<int>,
        readCounts: multiset<int>, finished: set<int>)
    requires AllChecked(before, now, i, readsBefore, readCounts, finished) && i < |before|
    ensures |now| == |before| && now[i] == before[i]
  {
    assert Checked(before[i], now[i], false, readsBefore, readCounts, finished);
  }

  lemma {:induction false} FreeChecked(before: seq<Member>, now: seq<Member>, i: nat, readsBefore: multiset<int>,
        readCounts: multiset<int>, finished: set<int>)
    requires AllChecked(before, now, i, readsBefore, readCounts, finished) && i < |before| && !Held(before[i])
    ensures AllChecked(before, now, i + 1, readsBefore, readCounts, finished)
  {
    forall j | 0 <= j < |before|
      ensures Checked(before[j], now[j], j < i + 1, readsBefore, readCounts, finished)
    {
      assert Checked(before[j], now[j], j < i, readsBefore, readCounts, finished);
    }
  }

  lemma {:induction false} OneChecked(before: seq<Member>, now: seq<Member>, after: seq<Member>, i: nat,
        readsBefore: multiset<int>,
                   readCounts: multiset<int>, reads': multiset<int>, finished: set<int>, finished': set<int>)
    requires AllChecked(before, now, i, readsBefore, readCounts, finished) && i < |before| == |now|
    requires now[i] == before[i] && Held(before[i])
    requires forall j, k | 0 <= j < |before| && 0 <= k < |before| && j != k && Held(before[j]) && Held(before[k]) ::
      before[j].descriptor != before[k].descriptor
    requires reads' == readCounts + multiset{before[i].descriptor}
    requires finished' == finished || finished' == finished + {before[i].descriptor}
    requires after == now[i := if before[i].descriptor in finished' then FREE else before[i]]
    ensures AllChecked(before, after, i + 1, readsBefore, reads', finished')
  {
    forall j | 0 <= j < |before|
      ensures Checked(before[j], after[j], j < i + 1, readsBefore, reads', finished')
    {
      assert Checked(before[j], now[j], j < i, readsBefore, readCounts, finished);
    }
  }

  lemma {:induction false} AllCheckedMeans(before: seq<Member>, now: seq<Member>, count: nat, readsBefore: multiset<int>,
        readCounts: multiset<int>, finished: set<int>)
    requires AllChecked(before, now, count, readsBefore, readCounts, finished) && |before| <= count
    ensures |now| == |before|
    ensures forall j | 0 <= j < |before| && Held(before[j]) ::
      && now[j] == (if before[j].descriptor in finished then FREE else before[j])
      && readCounts[before[j].descriptor] == readsBefore[before[j].descriptor] + 1
    ensures forall j | 0 <= j < |before| && !Held(before[j]) :: now[j] == before[j]
  {
    forall j | 0 <= j < |before|
      ensures Checked(before[j], now[j], true, readsBefore, readCounts, finished)
    {
    }
  }

  /** What a signal's outcome makes of a slot. */
  function AfterSignal(m: Member, signal: int, error: nat): Member {
    if error == 0 then m.(lastSignal := signal) else if error == ESRCH then FREE else m
  }

  /** A slot before and after the signal; `turn` tells whether it came to it. */
  predicate Signalled(before: Member, after: Member, signal: int, turn: bool, clean: bool, complete: bool,
                      sentBefore: multiset<(int, int)>, sent: multiset<(int, int)>, accepted: set<(int, int)>, finished: set<int>)
  {
    var call := (before.descriptor, signal);
    && (after == before || after == FREE || after == before.(lastSignal := signal))
    && (before.lastSignal == signal || !turn ==> after == before)
    && (Held(before) ==>
          && sent[call] == sentBefore[call] + (if turn && before.lastSignal != signal then 1 else 0)
          && (Held(after) && before.lastSignal != signal && after.lastSignal == signal ==> call in accepted)
          && (!Held(after) ==> !complete && before.descriptor in finished))
    && (clean && turn && Held(after) ==> after.lastSignal == signal)
  }

  predicate AllSlots(before: seq<Member>, now: seq<Member>, signal: int, count: nat, clean: bool, complete: bool,
                     sentBefore: multiset<(int, int)>, sent: multiset<(int, int)>, accepted: set<(int, int)>, finished: set<int>)
  {
    && |now| == |before|
    && forall j | 0 <= j < |before| ::
         Signalled(before[j], now[j], signal, j < count, clean, complete, sentBefore, sent, accepted, finished)
  }

  lemma {:induction false} NoSlotsYet(before: seq<Member>, signal: int, sent: multiset<(int, int)>, accepted: set<(int,
        int)>, finished: set<int>)
    ensures forall clean, complete :: AllSlots(before, before, signal, 0, clean, complete, sent, sent, accepted, finished)
  {
  }

  /** One of the first `count` slots still holds a process that did not get the signal. */
  predicate SomeLeft(table: seq<Member>, signal: int, count: nat) {
    exists j :: 0 <= j < |table| && j < count && Held(table[j]) && table[j].lastSignal != signal
  }

  /** Some process was let go. */
  predicate SomeGone(before: seq<Member>, now: seq<Member>) {
    exists j :: 0 <= j < |before| && j < |now| && Held(before[j]) && !Held(now[j])
  }

  lemma {:induction false} NoneGone(table: seq<Member>)
    ensures !SomeGone(table, table)
  {
  }

  lemma {:induction false} SlotLeft(before: seq<Member>, now: seq<Member>, i: nat, after: seq<Member>, signal: int)
    requires i < |before| == |now| && now[i] == before[i] && |after| == |now| && after == now[i := after[i]]
    ensures SomeLeft(now, signal, i) || (Held(after[i]) && after[i].lastSignal != signal) ==> SomeLeft(after, signal, i + 1)
    ensures SomeGone(before, after) <==> SomeGone(before, now) || (Held(before[i]) && !Held(after[i]))
  {
    if SomeLeft(now, signal, i) {
      var j :| 0 <= j < i && Held(now[j]) && now[j].lastSignal != signal;
      assert after[j] == now[j];
    }
    if SomeGone(before, now) {
      var j :| 0 <= j < |before| && Held(before[j]) && !Held(now[j]);
      assert after[j] == now[j];
    }
  }

  lemma {:induction false} NoneLeft(before: seq<Member>, now: seq<Member>, signal: int, count: nat, complete: bool,
        sentBefore: multiset<(int, int)>, sent: multiset<(int, int)>, accepted: set<(int, int)>, finished: set<int>)
    requires |before| <= count
    requires AllSlots(before, now, signal, count, true, complete, sentBefore, sent, accepted, finished)
    ensures !SomeLeft(now, signal, |now|)
  {
    SlotsMean(before, now, signal, count, true, complete, sentBefore, sent, accepted, finished);
  }

  lemma {:induction false} SlotUntouched(before: seq<Member>, now: seq<Member>, signal: int, i: nat, clean: bool, complete: bool,
                      sentBefore: multiset<(int, int)>, sent: multiset<(int, int)>, accepted: set<(int, int)>, finished: set<int>)
    requires AllSlots(before, now, signal, i, clean, complete, sentBefore, sent, accepted, finished) && i < |before|
    ensures |now| == |before| && now[i] == before[i]
  {
  }

  lemma {:induction false} SlotSkipped(before: seq<Member>, now: seq<Member>, signal: int, i: nat, clean: bool, complete: bool,
                    sentBefore: multiset<(int, int)>, sent: multiset<(int, int)>, accepted: set<(int, int)>, finished: set<int>)
    requires AllSlots(before, now, signal, i, clean, complete, sentBefore, sent, accepted, finished)
    requires i < |before| == |now| && now[i] == before[i] && (!Held(before[i]) || before[i].lastSignal == signal)
    ensures AllSlots(before, now, signal, i + 1, clean, complete, sentBefore, sent, accepted, finished)
  {
    forall j | 0 <= j < |before|
      ensures Signalled(before[j], now[j], signal, j < i + 1, clean, complete, sentBefore, sent, accepted, finished)
    {
      assert Signalled(before[j], now[j], signal, j < i, clean, complete, sentBefore, sent, accepted, finished);
    }
  }

  lemma {:induction false} SlotSignalled(before: seq<Member>, now: seq<Member>, after: seq<Member>, signal: int, i: nat,
        clean: bool, clean': bool,
                      complete: bool, complete': bool, error: nat, sentBefore: multiset<(int, int)>,
                      sent: multiset<(int, int)>, sent': multiset<(int, int)>, accepted: set<(int, int)>, accepted': set<(int, int)>,
                      finished: set<int>, finished': set<int>)
    requires AllSlots(before, now, signal, i, clean, complete, sentBefore, sent, accepted, finished)
    requires i < |before| == |now| && now[i] == before[i] && Held(before[i]) && before[i].lastSignal != signal
    requires forall j, k | 0 <= j < |before| && 0 <= k < |before| && j != k && Held(before[j]) && Held(before[k]) ::
      before[j].descriptor != before[k].descriptor
    requires after == now[i := AfterSignal(now[i], signal, error)] && sent' == sent + multiset{(before[i].descriptor, signal)}
    requires accepted' == accepted + (if error == 0 then {(before[i].descriptor, signal)} else {})
    requires finished' == finished + (if error == ESRCH then {before[i].descriptor} else {})
    requires clean' ==> clean && error in {0, ESRCH}
    requires complete' ==> complete && error != ESRCH
    ensures AllSlots(before, after, signal, i + 1, clean', complete', sentBefore, sent', accepted', finished')
  {
    forall j | 0 <= j < |before|
      ensures Signalled(before[j], after[j], signal, j < i + 1, clean', complete', sentBefore, sent', accepted', finished')
    {
      assert Signalled(before[j], now[j], signal, j < i, clean, complete, sentBefore, sent, accepted, finished);
    }
  }

  lemma {:induction false} SlotsMean(before: seq<Member>, now: seq<Member>, signal: int, count: nat, clean: bool, complete: bool,
                  sentBefore: multiset<(int, int)>, sent: multiset<(int, int)>, accepted: set<(int, int)>, finished: set<int>)
    requires |before| <= count
    requires AllSlots(before, now, signal, count, clean, complete, sentBefore, sent, accepted, finished)
    ensures |now| == |before|
    ensures forall j | 0 <= j < |before| ::
      && (now[j] == before[j] || now[j] == FREE || now[j] == before[j].(lastSignal := signal))
      && (before[j].lastSignal == signal ==> now[j] == before[j])
      && (clean && Held(now[j]) ==> now[j].lastSignal == signal)
    ensures forall j | 0 <= j < |before| && Held(before[j]) ::
      var call := (before[j].descriptor, signal);
      && sent[call] == sentBefore[call] + (if before[j].lastSignal != signal then 1 else 0)
      && (Held(now[j]) && before[j].lastSignal != signal && now[j].lastSignal == signal ==> call in accepted)
      && (!Held(now[j]) ==> before[j].descriptor in finished)
      && (complete ==> Held(now[j]) && now[j].device == before[j].device && now[j].inode == before[j].inode)
  {
    forall j | 0 <= j < |before|
      ensures Signalled(before[j], now[j], signal, j < count, clean, complete, sentBefore, sent, accepted, finished)
    {
    }
  }

  lemma {:induction false} TableSize(table: seq<Member>, open: set<int>)
    requires TableOk(table, open)
    ensures |table| == BATCH_CAPACITY
  {
  }

  lemma {:induction false} DescriptorsDiffer(table: seq<Member>, open: set<int>)
    requires TableOk(table, open)
    ensures forall i, j | 0 <= i < |table| && 0 <= j < |table| && i != j && Held(table[i]) && Held(table[j]) ::
      table[i].descriptor != table[j].descriptor
    ensures forall i | 0 <= i < |table| && Held(table[i]) :: table[i].descriptor in open
  {
  }

  lemma {:induction false} HeldIsOpen(table: seq<Member>, open: set<int>, i: nat)
    requires TableOk(table, open) && i < |table| && Held(table[i])
    ensures table[i].descriptor in open
  {
  }

  lemma {:induction false} FreeStaysFree(table: seq<Member>, open: set<int>, i: nat)
    requires TableOk(table, open) && i < |table| && !Held(table[i])
    ensures TableOk(table[i := FREE], open)
  {
    var after := table[i := FREE];
    forall d
      ensures d in Descriptors(after) <==> d in Descriptors(table)
    {
      if d in Descriptors(table) {
        var j :| 0 <= j < |table| && Held(table[j]) && table[j].descriptor == d;
        assert after[j] == table[j];
      }
    }
  }

  lemma {:induction false} Relabel(table: seq<Member>, open: set<int>, i: nat, signal: int)
    requires TableOk(table, open) && i < |table|
    ensures TableOk(table[i := table[i].(lastSignal := signal)], open)
  {
    var after := table[i := table[i].(lastSignal := signal)];
    assert forall j | 0 <= j < |table| :: after[j].descriptor == table[j].descriptor;
    forall d
      ensures d in Descriptors(after) <==> d in Descriptors(table)
    {
      if d in Descriptors(table) {
        var j :| 0 <= j < |table| && Held(table[j]) && table[j].descriptor == d;
        assert after[j].descriptor == d && Held(after[j]);
      }
    }
  }

  lemma {:induction false} NoneHeld(table: seq<Member>, open: set<int>)
    requires TableOk(table, open) && forall i | 0 <= i < |table| :: !Held(table[i])
    ensures open == {}
  {
  }

  lemma {:induction false} Fills(table: seq<Member>, i: nat, m: Member)
    requires i < |table| && Held(m)
    ensures HoldsIdentity(table[i := m], m.device, m.inode)
  {
    assert table[i := m][i] == m;
  }

  lemma {:induction false} NothingScanned(table: seq<Member>, group: int, session: int)
    ensures ScanOk([], table, false, group, session)
  {
  }

  lemma {:induction false} OneMoreOutcome(scan: seq<Finding>, f: Finding, table: seq<Member>, unretained: bool,
        group: int, session: int)
    requires ScanOk(scan, table, unretained, group, session) && OutcomeOk(f.outcome, table, unretained, group, session)
    ensures ScanOk(scan + [f], table, unretained, group, session)
  {
  }

  lemma {:induction false} StillOk(scan: seq<Finding>, table: seq<Member>, unretained: bool, group: int, session: int, ok: bool)
    requires ok ==> ScanOk(scan, table, unretained, group, session)
    ensures ok ==> ScanOk(scan, table, true, group, session)
  {
    if ok {
      forall k | 0 <= k < |scan|
        ensures OutcomeOk(scan[k].outcome, table, true, group, session)
      {
        assert OutcomeOk(scan[k].outcome, table, unretained, group, session);
      }
    }
  }

  /** With nothing retained and nothing left out, no entry of the scan was the group's. */
  lemma {:induction false} EmptyScan(scan: seq<Finding>, table: seq<Member>, group: int, session: int)
    requires ScanOk(scan, table, false, group, session) && forall i | 0 <= i < |table| :: !Held(table[i])
    ensures forall k | 0 <= k < |scan| :: Foreign(scan[k].outcome, group, session)
  {
    forall k | 0 <= k < |scan|
      ensures Foreign(scan[k].outcome, group, session)
    {
      assert OutcomeOk(scan[k].outcome, table, false, group, session);
    }
  }
}
