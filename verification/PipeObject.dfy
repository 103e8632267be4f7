/** The pipe in memory: a flat buffer moved to its front on every read, and counters updated under the lock. */
module PipeObject {
  import opened Bytes
  import opened Arith
  import opened Pipe

  /** Entries of one descriptor table that refer to this pipe. */
  datatype Entry = Empty | Other | End(write: bool)

  function Ends(table: seq<Entry>, write: bool): nat {
    if table == [] then 0 else Ends(table[..|table| - 1], write) + One(table[|table| - 1] == End(write))
  }

  /** `n` duplicates on one end. */
  function DupMany(p: Pipe, readers: nat, writers: nat): Pipe {
    p.(r := p.r.(refs := p.r.refs + readers, count := p.r.count + readers),
       w := p.w.(refs := p.w.refs + writers, count := p.w.count + writers))
  }

  /**
   * On a pipe `p`, the read step of any call of that size delivers `bytes`, leaves `p'`, and is over unless it waits.
   */
  ghost predicate IsRead(p: Pipe, size: nat, n: int, bytes: seq<byte>, p': Pipe) {
    forall s: Sys, id: nat | id in s.ops && s.p == p && s.ops[id].size == size ::
      var s' := ReadBy(s, id);
      && s'.p == p' && (n == -1 ==> s' == s)
      && (n >= 0 ==> s'.ops[id].over && s'.ops[id].eof == (n == 0 || s.ops[id].eof))
      && (n > 0 ==> s'.ops[id].data == bytes && s'.taken == s.taken + [Chunk(id, bytes)])
  }

  /** The same for the write step of a call with `data` left. */
  ghost predicate IsWrite(p: Pipe, data: seq<byte>, atomic: bool, n: int, p': Pipe) {
    forall s: Sys, id: nat | WriteOf(s, id, p, data, atomic) :: Writes(s, id, n, p')
  }

  predicate WriteOf(s: Sys, id: nat, p: Pipe, data: seq<byte>, atomic: bool) {
    && id in s.ops && s.p == p && s.ops[id].moved < |s.ops[id].data| && |p.buf| <= CAPACITY
    && s.ops[id].data[s.ops[id].moved..] == data && atomic == (|s.ops[id].data| <= ATOMIC_MAX)
  }

  predicate Writes(s: Sys, id: nat, n: int, p': Pipe)
    requires id in s.ops && s.ops[id].moved < |s.ops[id].data| && |s.p.buf| <= CAPACITY
  {
    var o, s' := s.ops[id], WriteBy(s, id);
    && s'.p == p' && (n == 0 ==> s' == s) && (n < 0 ==> s'.ops[id].over && s'.sent == s.sent)
    && (n > 0 ==>
      n <= |o.data| - o.moved && s'.ops[id].moved == o.moved + n &&
      s'.sent == s.sent + [Chunk(id, o.data[o.moved..o.moved + n])])
  }

  lemma WriteStep(p: Pipe, data: seq<byte>, atomic: bool, n: int)
    requires |p.buf| <= CAPACITY && data != []
    requires n == if p.r.count == 0 then -1 else Accepts(|p.buf|, |data|, atomic)
    ensures n <= |data| && IsWrite(p, data, atomic, n, p.(buf := p.buf + data[..if n > 0 then n else 0]))
  {
    hide Accepts;
    assert p.buf + data[..0] == p.buf;
    forall s: Sys, id: nat | WriteOf(s, id, p, data, atomic)
      ensures Writes(s, id, n, p.(buf := p.buf + data[..if n > 0 then n else 0]))
    {
      var o := s.ops[id];
      assert |data| == |o.data| - o.moved;
      if n > 0 { assert o.data[o.moved..o.moved + n] == data[..n] == o.data[o.moved..][..n]; }
    }
  }

  class PipeFile {
    const buf: array<byte>
    var ptr: nat
    var r: Side
    var w: Side
    var active: int
    var pending: bool
    var frees: nat

    ghost predicate Valid()
      reads this`ptr
    {
      buf.Length == CAPACITY && ptr <= CAPACITY
    }

    ghost function View(): Pipe
      requires Valid()
      reads this, buf
    {
      Pipe(buf[..ptr], r, w, active, pending, frees)
    }

    /** The allocation in pipe2. */
    constructor ()
      ensures Valid() && fresh(buf) &&
              View() == Pipe([], Side(1, 1, 0, false, 0, 0), Side(1, 1, 0, false, 0, 0), 0, false, 0)
    {
      buf := new byte[CAPACITY](_ => 0);
      ptr, active, pending, frees := 0, 0, false, 0;
      r, w := Side(1, 1, 0, false, 0, 0), Side(1, 1, 0, false, 0, 0);
    }

    /** memmove(buf, buf + n, ptr - n). */
    method ShiftDown(n: nat)
      requires Valid() && n <= ptr
      modifies buf
      ensures Valid() && buf[..ptr - n] == old(buf[n..ptr])
    {
      var i := 0;
      while i < ptr - n
        invariant 0 <= i <= ptr - n
        invariant forall j | 0 <= j < i :: buf[j] == old(buf[n + j])
        invariant forall j | i <= j < CAPACITY :: buf[j] == old(buf[j])
      {
        buf[i] := buf[n + i];
        i := i + 1;
      }
    }

    /** The transfer of pipefs_read when the buffer is not empty. */
    method TakeBytes(size: nat) returns (bytes: seq<byte>)
      requires Valid()
      modifies this`ptr, buf
      ensures Valid() && |bytes| == Min(size, |old(View()).buf|)
      ensures bytes + View().buf == old(View()).buf
      ensures View() == old(View()).(buf := View().buf)
    {
      var n := Min(size, ptr);
      bytes := buf[..n];
      ShiftDown(n);
      ptr := ptr - n;
    }

    /** The locked section of pipefs_read: the oldest bytes, 0 at end of file, -1 for waiting. */
    method ReadOnce(size: nat) returns (n: int, bytes: seq<byte>)
      requires Valid() && size > 0
      modifies this`ptr, buf
      ensures Valid() && bytes + View().buf == old(View()).buf && View() == old(View()).(buf := View().buf)
      ensures n == if |old(View()).buf| > 0 then Min(size, |old(View()).buf|) else if w.count == 0 then 0 else -1
      ensures |bytes| == if n > 0 then n else 0
      ensures IsRead(old(View()), size, n, bytes, View())
    {
      bytes := [];
      if ptr > 0 {
        bytes := TakeBytes(size);
        n := |bytes|;
      } else {
        n := if w.count == 0 then 0 else -1;
      }
      assert n > 0 ==> old(View()).buf[..n] == bytes && old(View()).buf[n..] == View().buf;
    }

    /** memcpy(&buf[ptr], data, n). */
    method PutBytes(data: seq<byte>)
      requires Valid() && ptr + |data| <= CAPACITY
      modifies this`ptr, buf
      ensures Valid() && View() == old(View()).(buf := old(View()).buf + data)
    {
      var i := 0;
      while i < |data|
        invariant 0 <= i <= |data| && ptr == old(ptr)
        invariant buf[..ptr] == old(buf[..ptr])
        invariant buf[ptr..ptr + i] == data[..i]
      {
        buf[ptr + i] := data[i];
        i := i + 1;
      }
      assert buf[..ptr + |data|] == buf[..ptr] + buf[ptr..ptr + |data|];
      assert buf[ptr..ptr + |data|] == data;
      ptr := ptr + |data|;
      assert buf[..ptr] == old(buf[..ptr]) + data;
    }

    /** The locked section of pipe_write_inner: -1 broken pipe, 0 must wait, otherwise the bytes taken. */
    method WriteOnce(data: seq<byte>, atomic: bool) returns (n: int)
      requires Valid()
      modifies this`ptr, buf
      ensures Valid()
      ensures n == if r.count == 0 then -1 else Accepts(|old(View()).buf|, |data|, atomic)
      ensures n <= |data| && View() == old(View()).(buf := old(View()).buf + data[..if n > 0 then n else 0])
      ensures IsWrite(old(View()), data, atomic, n, View())
    {
      n := 0;
      var available := CAPACITY - ptr;
      if r.count == 0 {
        n := -1;
      } else if available > 0 && (!atomic || available >= |data|) {
        n := if atomic then |data| else Min(|data|, available);
        PutBytes(data[..n]);
      }
      if data != [] { WriteStep(old(View()), data, atomic, n); }
    }

    /**
     * pipefs_write without waiting, nobody else running: a short write goes in whole or not at all, a long one as far
     * as there is room.
     */
    method WriteNonblocking(data: seq<byte>) returns (written: nat)
      requires Valid()
      modifies this`ptr, buf
      ensures Valid() && written <= |data|
      ensures View() == old(View()).(buf := old(View()).buf + data[..written])
      ensures var room := 0x1_0000 - |old(View()).buf|;
              written == if r.count == 0 then 0 else if |data| <= 0x1000 then (if |data| <= room then |data| else 0)
                else Min(|data|, room)
    {
      written := 0;
      var atomic := |data| <= ATOMIC_MAX;
      var going := true;
      ghost var was := View().buf;
      assert data[..0] == [];
      while written < |data| && going
        invariant Valid() && written <= |data| && r == old(r)
        invariant View() == old(View()).(buf := was + data[..written])
        invariant r.count == 0 ==> written == 0
        invariant atomic && written > 0 ==> written == |data|
        invariant going && !atomic && written > 0 ==> written == Min(|data|, CAPACITY - |was|)
        invariant !going ==>
                  r.count == 0 || (atomic && written == 0 && |data| > CAPACITY - |was|) ||
                  (!atomic && written == Min(|data|, CAPACITY - |was|))
        decreases going, |data| - written
      {
        var n := WriteOnce(data[written..], atomic);
        if n <= 0 {
          going := false;
        } else {
          assert data[..written] + data[written..][..n] == data[..written + n];
          written := written + n;
        }
      }
    }

    method Enter(write: bool)
      requires Valid()
      modifies this`r, this`w, this`active
      ensures Valid() && View() == EnterOf(old(View()), write)
    {
      if write {
        w := w.(active := w.active + 1);
      } else {
        r := r.(active := r.active + 1);
      }
      active := active + 1;
    }

    method Leave(write: bool)
      requires Valid()
      modifies this`r, this`w, this`active, this`frees
      ensures Valid() && View() == LeaveOf(old(View()), write)
    {
      var s := if write then w else r;
      s := s.(active := s.active - 1);
      active := active - 1;
      var freeSpec := s.pending && s.active == 0;
      var freePipe := pending && active == 0 && r.count == 0 && w.count == 0;
      if freeSpec {
        s := s.(specFrees := s.specFrees + 1);
      }
      if freePipe {
        frees := frees + 1;
      }
      if freeSpec && s.refs == 0 {
        s := s.(nodeFrees := s.nodeFrees + 1);
      }
      if write { w := s; } else { r := s; }
    }

    /** pipefs_close. */
    method ClosePipefs(write: bool)
      requires Valid()
      modifies this`r, this`w, this`pending, this`frees
      ensures Valid() && View() == PipefsClose(old(View()), write)
    {
      var s := if write then w else r;
      if s.count > 0 {
        s := s.(count := s.count - 1);
      }
      if s.count == 0 {
        if s.active == 0 { s := s.(specFrees := s.specFrees + 1); } else { s := s.(pending := true); }
      }
      if write { w := s; } else { r := s; }
      if r.count == 0 && w.count == 0 {
        if active == 0 { frees := frees + 1; } else { pending := true; }
      }
    }

    /** vfs_close on a pipe node. */
    method Close(write: bool)
      requires Valid()
      modifies this`r, this`w, this`pending, this`frees
      ensures Valid() && View() == CloseOf(old(View()), write)
    {
      hide PipefsClose;
      var wasActive := (if write then w else r).active > 0;
      if write { w := w.(refs := w.refs - 1); } else { r := r.(refs := r.refs - 1); }
      if (if write then w else r).specFrees == 0 {
        ClosePipefs(write);
        var s := if write then w else r;
        if s.refs == 0 {
          s := if wasActive then s.(pending := true) else s.(nodeFrees := s.nodeFrees + 1);
          if write { w := s; } else { r := s; }
        }
      }
    }

    method Dup(write: bool)
      requires Valid()
      modifies this`r, this`w
      ensures Valid() && View() == DupOf(old(View()), write)
    {
      if write {
        w := w.(refs := w.refs + 1, count := w.count + 1);
      } else {
        r := r.(refs := r.refs + 1, count := r.count + 1);
      }
    }

    /** copy_fdt: the copy has the same entries, and each end gains one reference per entry that names it. */
    method CopyTable(table: array<Entry>) returns (copy: array<Entry>)
      requires Valid()
      modifies this`r, this`w
      ensures Valid() && fresh(copy) && copy[..] == table[..]
      ensures View() == DupMany(old(View()), Ends(table[..], false), Ends(table[..], true))
    {
      copy := new Entry[table.Length](_ => Empty);
      var i := 0;
      while i < table.Length
        invariant 0 <= i <= table.Length && Valid() && table[..] == old(table[..])
        invariant fresh(copy) && copy.Length == table.Length && copy[..i] == table[..i]
        invariant View() == DupMany(old(View()), Ends(table[..i], false), Ends(table[..i], true))
      {
        assert table[..i + 1][..i] == table[..i];
        copy[i] := table[i];
        if table[i].End? {
          Dup(table[i].write);
        }
        i := i + 1;
      }
      assert table[..i] == table[..];
    }
  }
}
