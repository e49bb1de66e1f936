/** The lockset race monitor: its list of synchronisation cells, the access records that
    point into it, and the reference counts that decide which cells may be freed. */
module RaceMonitor {
  import opened HappensBefore

  class Cell {
    var next: Cell?
    var refcount: nat
    var event: SyncEvent
    ghost const at: nat  // its number in the order of allocation

    constructor (ghost at: nat)
      ensures next == null && refcount == 0 && event.tid == 0 && this.at == at
    {
      next, refcount, event := null, 0, SyncEvent(0, Other);
      this.at := at;
    }
  }

  /** An access record. */
  datatype Info = Info(owner: int, pos: Cell, lockset: Lockset)

  /** Reads are kept per address and thread. */
  type ReadKey = (int, int)

  // Counting records ------------------------------------------------------------------------

  ghost function Pointing<K>(m: map<K, Info>, c: Cell): set<K> {
    set k | k in m && m[k].pos == c
  }

  /** How many access records point at a cell. */
  ghost function Refs(w: map<int, Info>, r: map<ReadKey, Info>, c: Cell): nat {
    |Pointing(w, c)| + |Pointing(r, c)|
  }

  lemma PointingAfterUpdate<K>(m: map<K, Info>, k: K, i: Info, c: Cell)
    ensures |Pointing(m[k := i], c)| ==
            |Pointing(m, c)| - (if k in m && m[k].pos == c then 1 else 0) + (if i.pos == c then 1 else 0)
  {
    var rest := Pointing(m, c) - {k};
    assert Pointing(m[k := i], c) == rest + if i.pos == c then {k} else {};
  }

  lemma PointingAfterRemove<K>(m: map<K, Info>, k: K, c: Cell)
    requires k in m
    ensures |Pointing(m - {k}, c)| == |Pointing(m, c)| - if m[k].pos == c then 1 else 0
  {
    assert Pointing(m - {k}, c) == Pointing(m, c) - {k};
  }

  /** The reads of all other addresses. */
  ghost function Elsewhere(m: map<ReadKey, Info>, addr: int): map<ReadKey, Info> {
    map k | k in m && k.0 != addr :: m[k]
  }

  lemma RemovedElsewhere(m: map<ReadKey, Info>, k: ReadKey)
    ensures Elsewhere(m - {k}, k.0) == Elsewhere(m, k.0)
  {}

  class Monitor {
    var head: Cell
    var tail: Cell
    var cellcount: nat
    var racecount: nat
    var writeRecs: map<int, Info>      // Writes
    var readRecs: map<ReadKey, Info>   // Reads
    ghost var all: seq<Cell>           // every cell ever appended
    ghost var freed: nat               // how many of them were freed, from the front
    ghost var events: seq<SyncEvent>   // every sync event ever recorded

    // The invariant -------------------------------------------------------------------------

    ghost predicate ListOk()
      reads this`head, this`tail, this`cellcount, this`all, this`freed, this`events
      reads (set c | c in all)`next, (set c | c in all)`event
    {
      freed < |all| && head == all[freed] && tail == all[|all| - 1] && cellcount == |all| - 1 - freed
      && (forall i :: 0 <= i < |all| ==> all[i].at == i)
      && |events| == |all| - 1
      && (forall i {:trigger all[i].next} :: freed <= i < |all| - 1 ==> all[i].next == all[i + 1])
      && (forall i {:trigger all[i].event} :: freed <= i < |all| - 1 ==> all[i].event == events[i])
      && all[|all| - 1].next == null && all[|all| - 1].event.tid == 0
    }

    /** The cell is on the list from head to tail. */
    ghost predicate Live(c: Cell)
      reads this`all, this`freed
    {
      freed <= c.at < |all| && all[c.at] == c
    }

    ghost predicate OnList(w: map<int, Info>, r: map<ReadKey, Info>)
      reads this`all, this`freed
    {
      (forall a :: a in w ==> Live(w[a].pos)) && forall k :: k in r ==> Live(r[k].pos)
    }

    /** Reference counts are the numbers of records, with one to spare on `extra`. */
    ghost predicate Counted(w: map<int, Info>, r: map<ReadKey, Info>, extra: Cell?)
      reads this`all, this`freed, (set c | c in all)`refcount
    {
      forall i {:trigger all[i].refcount} :: freed <= i < |all| ==> all[i].refcount == Refs(w, r, all[i]) + if all[i] == extra then 1 else 0
    }

    ghost predicate Valid()
      reads this, all
    {
      ListOk() && OnList(writeRecs, readRecs) && Counted(writeRecs, readRecs, null)
    }

    constructor ()
      ensures Valid() && writeRecs == map[] && readRecs == map[] && racecount == 0 && fresh(all) && events == []
    {
      var c := new Cell(0);
      head, tail, all, freed, events := c, c, [c], 0, [];
      cellcount, racecount := 0, 0;
      writeRecs, readRecs := map[], map[];
    }

    // Sync events ---------------------------------------------------------------------------

    /** `enqueue_sync_event` */
    method Enqueue(e: SyncEvent)
      requires Valid()
      modifies this`tail, this`cellcount, this`all, this`events, tail
      ensures Valid() && all == old(all) + [tail] && fresh(tail) && events == old(events) + [e]
    {
      AppendCell(e);
      assert Pointing(writeRecs, tail) == {} && Pointing(readRecs, tail) == {};
    }

    method AppendCell(e: SyncEvent)
      requires ListOk()
      modifies this`tail, this`cellcount, this`all, this`events, tail`event, tail`next
      ensures ListOk() && all == old(all) + [tail] && fresh(tail) && tail.refcount == 0 && events == old(events) + [e]
    {
      var last := tail;
      var c := new Cell(|all|);
      last.event := e;
      last.next := c;
      tail := c;
      all := all + [c];
      events := events + [e];
      cellcount := cellcount + 1;
    }

    // Walking -------------------------------------------------------------------------------

    /** The loop of `apply_lockset_rules` from a record's cell to the tail.  It visits only
        cells that were not freed. */
    method WalkFrom(ls: Lockset, pos: Cell) returns (r: Lockset)
      requires ListOk() && Live(pos)
      ensures r == Walk(ls, events[pos.at..])
    {
      ghost var i := pos.at;
      ghost var trace := events[pos.at..];
      ghost var n := 0;
      var p := pos;
      r := ls;
      assert trace[..0] == [];
      while p != tail
        invariant freed <= i + n < |all| && p == all[i + n] && n <= |trace|
        invariant r == Walk(ls, trace[..n])
        decreases |trace| - n
      {
        WalkStep(ls, trace, n);
        r := Apply(r, p.event);
        p := p.next;
        n := n + 1;
      }
      assert trace[..n] == trace;
    }

    /** `check_happens_before` of a write record against an access of `tid` made now.  The
        lock tables it consults are never filled, so only the owners are compared. */
    method Check(w: Info, tid: int) returns (after: Info)
      requires ListOk() && Live(w.pos)
      modifies this`racecount
      ensures var ls := Walk(w.lockset, events[w.pos.at..]);
              if w.owner == tid then after == w && racecount == old(racecount)
              else after == w.(lockset := AfterCheck(ls, 0))
                   && racecount == old(racecount) + if Reports(ls, tid, 0) then 1 else 0
    {
      after := w;
      if w.owner != tid {
        var ls := WalkFrom(w.lockset, w.pos);
        if Reports(ls, tid, tail.event.tid) {
          racecount := racecount + 1;
        }
        after := w.(lockset := AfterCheck(ls, tail.event.tid));
      }
    }

    // Reference counts ------------------------------------------------------------------------

    /** `cell_rc_inc(tail)` */
    method RcIncTail()
      requires Valid()
      modifies tail`refcount
      ensures ListOk() && OnList(writeRecs, readRecs) && Counted(writeRecs, readRecs, tail)
    {
      tail.refcount := tail.refcount + 1;
    }

    /** `cell_rc_dec`: drops one reference and, on a long list, frees the unreferenced
        cells at its head.  The records that remain are (w, r); none of them loses its cell. */
    method RcDec(cell: Cell, ghost w: map<int, Info>, ghost r: map<ReadKey, Info>)
      requires ListOk() && OnList(w, r) && Live(cell) && Counted(w, r, cell)
      modifies this`head, this`cellcount, this`freed, cell`refcount
      ensures ListOk() && OnList(w, r) && Counted(w, r, null) && freed >= old(freed)
      ensures forall i :: old(freed) <= i < freed ==> Refs(w, r, all[i]) == 0
      ensures freed > old(freed) <==> Refs(w, r, cell) == 0 && old(cellcount) > 10000 && Refs(w, r, old(head)) == 0
      ensures freed > old(freed) ==> Refs(w, r, head) > 0 || head == tail
    {
      assert all[cell.at].refcount == cell.refcount && all[freed].refcount == head.refcount;
      cell.refcount := cell.refcount - 1;
      if cell.refcount == 0 && cellcount > 10000 && head.refcount == 0 {
        Sweep(w, r);
      }
    }

    method Sweep(ghost w: map<int, Info>, ghost r: map<ReadKey, Info>)
      requires ListOk() && OnList(w, r) && Counted(w, r, null)
      modifies this`head, this`cellcount, this`freed
      ensures ListOk() && OnList(w, r) && Counted(w, r, null) && freed >= old(freed)
      ensures forall i :: old(freed) <= i < freed ==> Refs(w, r, all[i]) == 0
      ensures Refs(w, r, head) > 0 || head == tail
      ensures freed > old(freed) <==> Refs(w, r, old(head)) == 0 && old(head) != tail
    {
      assert all[freed].refcount == Refs(w, r, head);
      while head.refcount == 0 && head.next != null
        invariant ListOk() && OnList(w, r) && Counted(w, r, null) && freed >= old(freed)
        invariant forall i :: old(freed) <= i < freed ==> Refs(w, r, all[i]) == 0
        decreases |all| - freed
      {
        FreeHead(w, r);
      }
      assert all[freed].refcount == Refs(w, r, head);
      assert head != tail ==> all[freed].next == all[freed + 1];
    }

    /** Takes an unreferenced cell off the front. */
    method FreeHead(ghost w: map<int, Info>, ghost r: map<ReadKey, Info>)
      requires ListOk() && OnList(w, r) && Counted(w, r, null) && head.refcount == 0 && head.next != null
      modifies this`head, this`cellcount, this`freed
      ensures ListOk() && OnList(w, r) && Counted(w, r, null)
      ensures freed == old(freed) + 1 && Refs(w, r, old(head)) == 0
    {
      assert forall a :: a in w && w[a].pos == head ==> a in Pointing(w, head);
      assert forall k :: k in r && r[k].pos == head ==> k in Pointing(r, head);
      head := head.next;
      cellcount := cellcount - 1;
      freed := freed + 1;
    }

    // Accesses --------------------------------------------------------------------------------

    /** Whether an access of `addr` by `tid` is reported as a race. */
    ghost predicate Racy(tid: int, addr: int)
      requires ListOk() && OnList(writeRecs, readRecs)
      reads this, all
    {
      addr in writeRecs && writeRecs[addr].owner != tid
      && Reports(Walk(writeRecs[addr].lockset, events[writeRecs[addr].pos.at..]), tid, 0)
    }

    /** For a write that was not checked since, and without skip markers, an access of
        another thread is reported exactly if it is not ordered after the write. */
    lemma FirstCheckIsExact(tid: int, addr: int)
      requires Valid() && addr in writeRecs && writeRecs[addr].lockset == Fresh(writeRecs[addr].owner)
      requires writeRecs[addr].owner != tid && SkipFree(events[writeRecs[addr].pos.at..])
      ensures Racy(tid, addr) <==> !Reaches(events[writeRecs[addr].pos.at..], writeRecs[addr].owner, tid)
    {
      FirstVerdictIsExact(events[writeRecs[addr].pos.at..], writeRecs[addr].owner, tid, 0);
    }

    /** With skip markers: it is reported exactly if no chain, jumps over skipped stretches
        included, orders it after the write.  (No real thread has the id 0 of the tail cell.) */
    lemma FirstCheckWithSkips(tid: int, addr: int)
      requires Valid() && addr in writeRecs && writeRecs[addr].lockset == Fresh(writeRecs[addr].owner)
      requires writeRecs[addr].owner != tid
      ensures var trace := events[writeRecs[addr].pos.at..];
              Racy(tid, addr) <==> !MayReach(trace, writeRecs[addr].owner, tid) && !Marked(trace, 0, |trace|)
    {
      FirstVerdictWithSkips(events[writeRecs[addr].pos.at..], writeRecs[addr].owner, tid, 0);
    }

    /** The next check of a write record is right, whatever lies between, if and only if the
        record still has the lockset of a fresh one, as `HandleWrite` leaves it. */
    lemma NextCheckIsExactIff(addr: int)
      requires Valid() && addr in writeRecs
      ensures Exact(writeRecs[addr].lockset, writeRecs[addr].owner, tail.event.tid)
              <==> writeRecs[addr].lockset == Fresh(writeRecs[addr].owner)
    {
      ExactIffFresh(writeRecs[addr].lockset, writeRecs[addr].owner, tail.event.tid);
    }

    /** Counts after a record is added or moved to the tail, whose count went up. */
    lemma ReadCounts(key: ReadKey, info: Info)
      requires ListOk() && Counted(writeRecs, readRecs, tail) && info.pos == tail
      ensures Counted(writeRecs, readRecs[key := info], if key in readRecs then readRecs[key].pos else null)
    {
      forall i {:trigger all[i].refcount} | freed <= i < |all|
        ensures all[i].refcount == Refs(writeRecs, readRecs[key := info], all[i])
                                   + if key in readRecs && all[i] == readRecs[key].pos then 1 else 0
      {
        PointingAfterUpdate(readRecs, key, info, all[i]);
      }
    }

    lemma WriteCounts(addr: int, info: Info)
      requires ListOk() && Counted(writeRecs, readRecs, tail) && info.pos == tail
      ensures Counted(writeRecs[addr := info], readRecs, if addr in writeRecs then writeRecs[addr].pos else null)
    {
      forall i {:trigger all[i].refcount} | freed <= i < |all|
        ensures all[i].refcount == Refs(writeRecs[addr := info], readRecs, all[i])
                                   + if addr in writeRecs && all[i] == writeRecs[addr].pos then 1 else 0
      {
        PointingAfterUpdate(writeRecs, addr, info, all[i]);
      }
    }

    /** Puts a read record that points at the tail; a record it replaces gives its
        reference back. */
    method PutRead(key: ReadKey, info: Info)
      requires ListOk() && OnList(writeRecs, readRecs) && Counted(writeRecs, readRecs, tail) && info.pos == tail
      modifies this`head, this`cellcount, this`freed, this`readRecs, (set c | c in all)`refcount
      ensures Valid() && readRecs == old(readRecs)[key := info]
    {
      ReadCounts(key, info);
      if key in readRecs {
        RcDec(readRecs[key].pos, writeRecs, readRecs[key := info]);
      }
      readRecs := readRecs[key := info];
    }

    /** The same for a write record. */
    method PutWrite(addr: int, info: Info)
      requires ListOk() && OnList(writeRecs, readRecs) && Counted(writeRecs, readRecs, tail) && info.pos == tail
      modifies this`head, this`cellcount, this`freed, this`writeRecs, (set c | c in all)`refcount
      ensures Valid() && writeRecs == old(writeRecs)[addr := info]
    {
      WriteCounts(addr, info);
      if addr in writeRecs {
        RcDec(writeRecs[addr].pos, writeRecs[addr := info], readRecs);
      }
      writeRecs := writeRecs[addr := info];
    }

    /** Checks the last write of `addr`, if there is one, and keeps the changed lockset. */
    method CheckWrite(addr: int, tid: int)
      requires Valid()
      modifies this`writeRecs, this`racecount
      ensures Valid()
      ensures racecount == old(racecount) + if old(Racy(tid, addr)) then 1 else 0
      ensures writeRecs == if addr in old(writeRecs) && old(writeRecs[addr]).owner != tid
                           then var w := old(writeRecs[addr]);
                                old(writeRecs)[addr := w.(lockset := AfterCheck(Walk(w.lockset, events[w.pos.at..]), 0))]
                           else old(writeRecs)
    {
      if addr in writeRecs {
        var w := Check(writeRecs[addr], tid);
        SamePositions(addr, w);
        writeRecs := writeRecs[addr := w];
      }
    }

    /** Changing a record's lockset changes no count. */
    lemma SamePositions(addr: int, w: Info)
      requires Valid() && addr in writeRecs && w.pos == writeRecs[addr].pos
      ensures OnList(writeRecs[addr := w], readRecs) && Counted(writeRecs[addr := w], readRecs, null)
    {
      forall i {:trigger all[i].refcount} | freed <= i < |all|
        ensures all[i].refcount == Refs(writeRecs[addr := w], readRecs, all[i])
      {
        PointingAfterUpdate(writeRecs, addr, w, all[i]);
      }
    }

    /** `monitor_handle_read` */
    method HandleRead(tid: int, addr: int)
      requires Valid()
      modifies this`head, this`cellcount, this`freed, this`readRecs, this`writeRecs, this`racecount
      modifies (set c | c in all)`refcount
      ensures Valid()
      ensures racecount == old(racecount) + if old(Racy(tid, addr)) then 1 else 0
      ensures readRecs == old(readRecs)[(addr, tid) := Info(tid, tail,
                if (addr, tid) in old(readRecs) then old(readRecs)[(addr, tid)].lockset.(addrs := {}, threads := {tid})
                else Lockset({}, {tid}, {}, {}))]
      ensures writeRecs == if addr in old(writeRecs) && old(writeRecs[addr]).owner != tid
                           then var w := old(writeRecs[addr]);
                                old(writeRecs)[addr := w.(lockset := AfterCheck(Walk(w.lockset, events[w.pos.at..]), 0))]
                           else old(writeRecs)
    {
      var key := (addr, tid);
      RcIncTail();
      var lockset := if key in readRecs then readRecs[key].lockset.(addrs := {}, threads := {tid}) else Fresh(tid);
      PutRead(key, Info(tid, tail, lockset));
      CheckWrite(addr, tid);
    }

    /** The reads of an address since its last write are forgotten. */
    method ForgetReads(addr: int)
      requires Valid()
      modifies this`head, this`cellcount, this`freed, this`readRecs, (set c | c in all)`refcount
      ensures Valid() && readRecs == Elsewhere(old(readRecs), addr)
    {
      var todo := set k | k in readRecs && k.0 == addr;
      while todo != {}
        invariant Valid() && Elsewhere(readRecs, addr) == Elsewhere(old(readRecs), addr)
        invariant forall k :: k in todo <==> k in readRecs && k.0 == addr
        decreases |todo|
      {
        var k :| k in todo;
        RemovedElsewhere(readRecs, k);
        ForgetRead(k);
        todo := todo - {k};
      }
      assert readRecs == Elsewhere(readRecs, addr);
    }

    method ForgetRead(k: ReadKey)
      requires Valid() && k in readRecs
      modifies this`head, this`cellcount, this`freed, this`readRecs, (set c | c in all)`refcount
      ensures Valid() && readRecs == old(readRecs) - {k}
    {
      forall i {:trigger all[i].refcount} | freed <= i < |all|
        ensures all[i].refcount == Refs(writeRecs, readRecs - {k}, all[i]) + if all[i] == readRecs[k].pos then 1 else 0
      {
        PointingAfterRemove(readRecs, k, all[i]);
      }
      RcDec(readRecs[k].pos, writeRecs, readRecs - {k});
      readRecs := readRecs - {k};
    }

    /** The check of the write that is about to be replaced; its lockset does not matter any more. */
    method Judge(addr: int, tid: int)
      requires ListOk() && OnList(writeRecs, readRecs)
      modifies this`racecount
      ensures racecount == old(racecount) + if old(Racy(tid, addr)) then 1 else 0
    {
      if addr in writeRecs {
        var _ := Check(writeRecs[addr], tid);
      }
    }

    /** `monitor_handle_write` */
    method HandleWrite(tid: int, addr: int)
      requires Valid()
      modifies this`head, this`cellcount, this`freed, this`readRecs, this`writeRecs, this`racecount
      modifies (set c | c in all)`refcount
      ensures Valid() && writeRecs == old(writeRecs)[addr := Info(tid, tail, Fresh(tid))]
      ensures readRecs == Elsewhere(old(readRecs), addr)
      ensures racecount == old(racecount) + if old(Racy(tid, addr)) then 1 else 0
    {
      var info := Info(tid, tail, Fresh(tid));
      RcIncTail();
      Judge(addr, tid);
      PutWrite(addr, info);
      ForgetReads(addr);
    }
  }
}
