/** The native resource registry (src/natives/registry.rs): a table from
    integer handles to reference-counted native resources, with one
    shared, ever-increasing handle counter. The native payloads (windows,
    files, GPU contexts) are reduced to what the registry itself keeps of
    them; whether the foreign library call that creates or presents them
    succeeds is a parameter. */
module Registry {
  import opened Machine

  // ----- colours -----

  function Clamp255(x: int): (r: int)
    ensures 0 <= r <= 255
    ensures 0 <= x <= 255 ==> r == x
    ensures x < 0 ==> r == 0
    ensures x > 255 ==> r == 255
  {
    if x < 0 then 0 else if x > 255 then 255 else x
  }

  /** The pixel of three channels, each clamped to 0..255. The source
      shifts and ors the bytes into place; as they do not overlap, that is
      the sum written here. Unpacking the three bytes gives back the
      clamped channels. */
  function PackColor(r: int, g: int, b: int): (c: u32)
    ensures c < 0x100_0000
    ensures c / 0x1_0000 == Clamp255(r)
    ensures (c / 0x100) % 0x100 == Clamp255(g)
    ensures c % 0x100 == Clamp255(b)
  {
    Clamp255(r) * 0x1_0000 + Clamp255(g) * 0x100 + Clamp255(b)
  }

  /** The colour a new window's framebuffer starts out with. */
  const WindowBackground: u32 := 0x333333
  /** The colour a new voxel world's framebuffer starts out with. */
  const VoxelBackground: u32 := 0x0d1b2a

  // ----- the table -----

  datatype Voxel = Voxel(x: int, y: int, z: int)

  /** What an entry holds. A file is the text written to it so far; a
      timestamp and a GPU context carry nothing the registry inspects. */
  datatype Resource =
    | Counter(count: int)
    | Window(buffer: seq<u32>, width: nat, height: nat)
    | File(written: string)
    | Timestamp
    | GpuContext
    | VoxelWorld(pixels: seq<u32>, worldWidth: nat, worldHeight: nat, voxels: seq<Voxel>)

  datatype Entry = Entry(res: Resource, refCount: nat)

  type Table = map<nat, Entry>

  /** Every handle in the table was handed out before `nextId`, handles
      start at 1, and a live entry is referenced at least once. */
  predicate ValidTable(t: Table, nextId: nat) {
    && 1 <= nextId
    && forall id :: id in t ==> 1 <= id < nextId && t[id].refCount >= 1
  }

  /** The diagnostic line an operation writes to standard error, if any. */
  datatype Diagnostic = Quiet | NotFound | WrongKind | DoubleFree | WriteFailed | CreateFailed

  // ----- the operations, on tables -----

  /** `registry_retain`: one more reference to a live entry. */
  function Retained(t: Table, id: nat): (r: Table)
    ensures r.Keys == t.Keys
    ensures id in t ==> r[id].res == t[id].res && r[id].refCount == t[id].refCount + 1
    ensures forall k :: k in t && k != id ==> r[k] == t[k]
  {
    if id in t then t[id := t[id].(refCount := t[id].refCount + 1)] else t
  }

  /** `registry_release`: one reference fewer, never below zero; the entry
      goes once no reference is left. */
  function Released(t: Table, id: nat): (r: Table)
    ensures id in t && t[id].refCount <= 1 ==> r == t - {id}
    ensures id in t && t[id].refCount > 1 ==>
      r.Keys == t.Keys && r[id].res == t[id].res && r[id].refCount == t[id].refCount - 1
    ensures id !in t ==> r == t
    ensures forall k :: k != id ==> (k in r <==> k in t) && (k in t ==> r[k] == t[k])
  {
    if id !in t then t
    else
      var rc := if t[id].refCount > 0 then t[id].refCount - 1 else 0;
      if rc == 0 then t - {id} else t[id := t[id].(refCount := rc)]
  }

  /** `registry_free`: the entry goes whatever its reference count. */
  function Freed(t: Table, id: nat): (r: Table)
    ensures id !in r
    ensures forall k :: k != id ==> (k in r <==> k in t) && (k in t ==> r[k] == t[k])
  {
    t - {id}
  }

  /** `registry_increment`: a counter goes up by one; anything else is
      left alone. */
  function Incremented(t: Table, id: nat): (r: Table)
    ensures r.Keys == t.Keys
    ensures id in t && t[id].res.Counter? ==>
      r[id] == t[id].(res := Counter(t[id].res.count + 1))
    ensures !(id in t && t[id].res.Counter?) ==> r == t
    ensures forall k :: k in t && k != id ==> r[k] == t[k]
  {
    if id in t && t[id].res.Counter? then t[id := t[id].(res := Counter(t[id].res.count + 1))] else t
  }

  /** `registry_get_value`: a counter's count, `-1` for a missing handle
      or one of another kind. */
  function CounterValue(t: Table, id: nat): (v: int)
    ensures id !in t ==> v == -1
    ensures id in t && !t[id].res.Counter? ==> v == -1
    ensures id in t && t[id].res.Counter? ==> v == t[id].res.count
  {
    if id in t && t[id].res.Counter? then t[id].res.count else -1
  }

  /** `registry_fill_color`: every pixel of a window becomes `color`. */
  function Filled(t: Table, id: nat, color: u32): (r: Table)
    ensures r.Keys == t.Keys
    ensures id in t && t[id].res.Window? ==>
      && r[id].refCount == t[id].refCount
      && r[id].res.Window?
      && r[id].res.width == t[id].res.width && r[id].res.height == t[id].res.height
      && |r[id].res.buffer| == |t[id].res.buffer|
      && forall j :: 0 <= j < |r[id].res.buffer| ==> r[id].res.buffer[j] == color
    ensures !(id in t && t[id].res.Window?) ==> r == t
    ensures forall k :: k in t && k != id ==> r[k] == t[k]
  {
    if id in t && t[id].res.Window? then
      var w := t[id].res;
      t[id := t[id].(res := w.(buffer := seq(|w.buffer|, _ => color)))]
    else t
  }

  /** `registry_file_write`: a successful write appends the content. */
  function Written(t: Table, id: nat, content: string): (r: Table)
    ensures r.Keys == t.Keys
    ensures id in t && t[id].res.File? ==>
      r[id] == t[id].(res := File(t[id].res.written + content))
    ensures !(id in t && t[id].res.File?) ==> r == t
    ensures forall k :: k in t && k != id ==> r[k] == t[k]
  {
    if id in t && t[id].res.File? then t[id := t[id].(res := File(t[id].res.written + content))] else t
  }

  /** `registry_voxel_add_block`: a voxel world gains one block, with each
      coordinate cut to `i32`. */
  function WithBlock(t: Table, id: nat, x: int, y: int, z: int): (r: Table)
    ensures r.Keys == t.Keys
    ensures id in t && t[id].res.VoxelWorld? ==>
      r[id] == t[id].(res := t[id].res.(voxels := t[id].res.voxels + [Voxel(AsI32(x), AsI32(y), AsI32(z))]))
    ensures !(id in t && t[id].res.VoxelWorld?) ==> r == t
    ensures forall k :: k in t && k != id ==> r[k] == t[k]
  {
    if id in t && t[id].res.VoxelWorld? then
      var v := t[id].res;
      t[id := t[id].(res := v.(voxels := v.voxels + [Voxel(AsI32(x), AsI32(y), AsI32(z))]))]
    else t
  }

  // ----- properties of the table operations -----

  /** A retain followed by a release gives back the table it started from. */
  lemma RetainReleaseRoundTrip(t: Table, nextId: nat, id: nat)
    requires ValidTable(t, nextId)
    ensures Released(Retained(t, id), id) == t
  {
    if id in t {
      assert Retained(t, id)[id].refCount == t[id].refCount + 1;
      assert Released(Retained(t, id), id) == Retained(t, id)[id := t[id]];
      assert Retained(t, id)[id := t[id]] == t;
    }
  }

  /** `n` retains in a row. */
  function RetainedN(t: Table, id: nat, n: nat): Table
    decreases n
  {
    if n == 0 then t else Retained(RetainedN(t, id, n - 1), id)
  }

  /** `n` releases in a row. */
  function ReleasedN(t: Table, id: nat, n: nat): Table
    decreases n
  {
    if n == 0 then t else Released(ReleasedN(t, id, n - 1), id)
  }

  lemma {:induction false} RetainedNCount(t: Table, id: nat, n: nat)
    requires id in t
    ensures RetainedN(t, id, n).Keys == t.Keys
    ensures RetainedN(t, id, n)[id] == t[id].(refCount := t[id].refCount + n)
    ensures forall k :: k in t && k != id ==> RetainedN(t, id, n)[k] == t[k]
    decreases n
  {
    if n > 0 {
      RetainedNCount(t, id, n - 1);
    }
  }

  /** Releasing `n` times an entry that is referenced more than `n` times
      keeps it, with `n` references fewer. */
  lemma {:induction false} ReleasedNCount(t: Table, id: nat, n: nat)
    requires id in t && t[id].refCount > n
    ensures ReleasedN(t, id, n).Keys == t.Keys
    ensures ReleasedN(t, id, n)[id] == t[id].(refCount := t[id].refCount - n)
    ensures forall k :: k in t && k != id ==> ReleasedN(t, id, n)[k] == t[k]
    decreases n
  {
    if n > 0 {
      ReleasedNCount(t, id, n - 1);
    }
  }

  /** Balanced retains and releases leave the table as it was; one release
      more removes the entry and nothing else. */
  lemma BalancedReferences(t: Table, nextId: nat, id: nat, n: nat)
    requires ValidTable(t, nextId) && id in t
    ensures ReleasedN(RetainedN(t, id, n), id, n) == t
    ensures ReleasedN(RetainedN(t, id, n), id, n + t[id].refCount) == t - {id}
  {
    var u := RetainedN(t, id, n);
    RetainedNCount(t, id, n);
    ReleasedNCount(u, id, n);
    var v := ReleasedN(u, id, n);
    assert v == t;
    LastReferences(t, id, t[id].refCount);
    ReleasedNShift(u, id, n, t[id].refCount);
  }

  /** Releasing an entry as often as it is referenced removes it. */
  lemma {:induction false} LastReferences(t: Table, id: nat, n: nat)
    requires id in t && t[id].refCount == n >= 1
    ensures ReleasedN(t, id, n) == t - {id}
    decreases n
  {
    if n == 1 {
      assert ReleasedN(t, id, 1) == Released(t, id);
    } else {
      var t' := t[id := t[id].(refCount := n - 1)];
      ReleasedNShift(t, id, 1, n - 1);
      assert ReleasedN(t, id, 1) == t';
      LastReferences(t', id, n - 1);
      assert t' - {id} == t - {id};
    }
  }

  /** `m + n` releases are `m` releases followed by `n` more. */
  lemma {:induction false} ReleasedNShift(t: Table, id: nat, m: nat, n: nat)
    ensures ReleasedN(t, id, m + n) == ReleasedN(ReleasedN(t, id, m), id, n)
    decreases n
  {
    if n > 0 {
      ReleasedNShift(t, id, m, n - 1);
    }
  }

  /** Every operation keeps the table valid. */
  lemma OperationsKeepValid(t: Table, nextId: nat, id: nat, color: u32, content: string, x: int, y: int, z: int)
    requires ValidTable(t, nextId)
    ensures ValidTable(Retained(t, id), nextId)
    ensures ValidTable(Released(t, id), nextId)
    ensures ValidTable(Freed(t, id), nextId)
    ensures ValidTable(Incremented(t, id), nextId)
    ensures ValidTable(Filled(t, id, color), nextId)
    ensures ValidTable(Written(t, id, content), nextId)
    ensures ValidTable(WithBlock(t, id, x, y, z), nextId)
  {
  }

  /** The next handle is never in use, and claiming it keeps the table
      valid. */
  lemma FreshHandle(t: Table, nextId: nat, res: Resource)
    requires ValidTable(t, nextId)
    ensures nextId !in t
    ensures ValidTable(t[nextId := Entry(res, 1)], nextId + 1)
  {
  }

  /** Reading a counter never changes it, and reads back each increment. */
  lemma IncrementThenRead(t: Table, id: nat)
    requires id in t && t[id].res.Counter?
    ensures CounterValue(Incremented(t, id), id) == CounterValue(t, id) + 1
    ensures forall k :: k != id ==> CounterValue(Incremented(t, id), k) == CounterValue(t, k)
  {
  }

  /** A handle that is not live reads `-1`, also after it is freed. */
  lemma FreedReadsMinusOne(t: Table, id: nat)
    ensures CounterValue(Freed(t, id), id) == -1
    ensures id in t && t[id].res.Counter? && t[id].refCount <= 1 ==> CounterValue(Released(t, id), id) == -1
  {
  }

  // ----- the registry -----

  /** The global table and handle counter; the first handle is 1. */
  class HandleRegistry {
    var table: Table
    var nextId: nat

    ghost predicate Valid()
      reads this
    {
      ValidTable(table, nextId)
    }

    constructor ()
      ensures Valid()
      ensures table == map[] && nextId == 1
    {
      table := map[];
      nextId := 1;
    }

    /** Takes the next handle and stores `res` under it with one reference. */
    method Allocate(res: Resource) returns (h: int)
      requires Valid()
      modifies this
      ensures Valid()
      ensures h == old(nextId) >= 1
      ensures old(nextId) !in old(table)
      ensures nextId == old(nextId) + 1
      ensures table == old(table)[h := Entry(res, 1)]
    {
      FreshHandle(table, nextId, res);
      h := nextId;
      nextId := nextId + 1;
      table := table[h := Entry(res, 1)];
    }

    method Retain(h: i64)
      requires Valid()
      modifies this
      ensures Valid()
      ensures table == Retained(old(table), AsUsize(h)) && nextId == old(nextId)
    {
      var id := AsUsize(h);
      if id in table {
        table := table[id := table[id].(refCount := table[id].refCount + 1)];
      }
    }

    method Release(h: i64)
      requires Valid()
      modifies this
      ensures Valid()
      ensures table == Released(old(table), AsUsize(h)) && nextId == old(nextId)
    {
      var id := AsUsize(h);
      var remove := false;
      if id in table {
        var e := table[id];
        if e.refCount > 0 {
          e := e.(refCount := e.refCount - 1);
          table := table[id := e];
        }
        if e.refCount == 0 {
          remove := true;
        }
      }
      if remove {
        table := table - {id};
      }
    }

    method CreateCounter() returns (h: int)
      requires Valid()
      modifies this
      ensures Valid()
      ensures h == old(nextId) >= 1 && nextId == old(nextId) + 1
      ensures table == old(table)[h := Entry(Counter(0), 1)]
    {
      h := Allocate(Counter(0));
    }

    method Increment(h: i64) returns (d: Diagnostic)
      requires Valid()
      modifies this
      ensures Valid()
      ensures table == Incremented(old(table), AsUsize(h)) && nextId == old(nextId)
      ensures d == (if AsUsize(h) !in old(table) then NotFound
                    else if old(table)[AsUsize(h)].res.Counter? then Quiet else WrongKind)
    {
      var id := AsUsize(h);
      if id in table {
        if table[id].res.Counter? {
          table := table[id := table[id].(res := Counter(table[id].res.count + 1))];
          d := Quiet;
        } else {
          d := WrongKind;
        }
      } else {
        d := NotFound;
      }
    }

    /** Only an absent handle is reported; a handle of another kind reads
        `-1` silently. */
    method GetValue(h: i64) returns (v: int, d: Diagnostic)
      ensures AsUsize(h) in table && table[AsUsize(h)].res.Counter? ==> v == table[AsUsize(h)].res.count
      ensures !(AsUsize(h) in table && table[AsUsize(h)].res.Counter?) ==> v == -1
      ensures d == (if AsUsize(h) in table then Quiet else NotFound)
      ensures v == CounterValue(table, AsUsize(h))
    {
      var id := AsUsize(h);
      if id in table {
        d := Quiet;
        if table[id].res.Counter? {
          v := table[id].res.count;
        } else {
          v := -1;
        }
      } else {
        v, d := -1, NotFound;
      }
    }

    method Free(h: i64) returns (d: Diagnostic)
      requires Valid()
      modifies this
      ensures Valid()
      ensures table == Freed(old(table), AsUsize(h)) && nextId == old(nextId)
      ensures d == (if AsUsize(h) in old(table) then Quiet else DoubleFree)
    {
      var id := AsUsize(h);
      if id in table {
        table := table - {id};
        d := Quiet;
      } else {
        d := DoubleFree;
      }
    }

    /** Closing a window is freeing its handle. */
    method WindowClose(h: i64) returns (d: Diagnostic)
      requires Valid()
      modifies this
      ensures Valid()
      ensures table == Freed(old(table), AsUsize(h)) && nextId == old(nextId)
      ensures d == (if AsUsize(h) in old(table) then Quiet else DoubleFree)
    {
      d := Free(h);
    }

    /** The number of live entries, counted one entry at a time. */
    method Dump() returns (count: nat)
      ensures count == |table|
    {
      count := 0;
      var rest := table.Keys;
      while rest != {}
        invariant rest <= table.Keys
        invariant count + |rest| == |table.Keys|
        decreases |rest|
      {
        var id :| id in rest;
        rest := rest - {id};
        count := count + 1;
      }
      assert |table.Keys| == |table|;
    }

    /** Records the current instant under a new handle. */
    method Now() returns (h: int)
      requires Valid()
      modifies this
      ensures Valid()
      ensures h == old(nextId) >= 1 && nextId == old(nextId) + 1
      ensures table == old(table)[h := Entry(Timestamp, 1)]
    {
      h := Allocate(Timestamp);
    }

    /** The milliseconds since a timestamp was taken (`elapsedMs`, read
        from the clock), or `-1` for any other handle. */
    method ElapsedMs(h: i64, elapsedMs: nat) returns (ms: int)
      ensures AsUsize(h) in table && table[AsUsize(h)].res.Timestamp? ==> ms == elapsedMs
      ensures !(AsUsize(h) in table && table[AsUsize(h)].res.Timestamp?) ==> ms == -1
    {
      var id := AsUsize(h);
      if id in table && table[id].res.Timestamp? {
        ms := elapsedMs;
      } else {
        ms := -1;
      }
    }

    /** Opens a window (`windowOk` says whether the windowing library
        managed it). The handle is taken either way; only a window that
        opened is stored, with a `width * height` framebuffer of the background
        colour. */
    method CreateWindow(width: i64, height: i64, windowOk: bool) returns (h: int, d: Diagnostic)
      requires Valid()
      modifies this
      ensures Valid()
      ensures nextId == old(nextId) + 1
      ensures windowOk ==> h == old(nextId) && d == Quiet
      ensures windowOk ==> table == old(table)[h := Entry(Window(
        seq(AsUsize(width) * AsUsize(height), _ => WindowBackground), AsUsize(width), AsUsize(height)), 1)]
      ensures !windowOk ==> h == -1 && d == CreateFailed && table == old(table)
    {
      var id := nextId;
      nextId := nextId + 1;
      var w := AsUsize(width);
      var ht := AsUsize(height);
      var buffer := seq(w * ht, _ => WindowBackground);
      if windowOk {
        table := table[id := Entry(Window(buffer, w, ht), 1)];
        h, d := id, Quiet;
      } else {
        h, d := -1, CreateFailed;
      }
    }

    /** Presents a window's framebuffer; true while the window is open
        (`stillOpen`: the presentation succeeded and the window was not
        closed). Any other handle gives false. */
    method WindowUpdate(h: i64, stillOpen: bool) returns (open: bool)
      ensures open <==> AsUsize(h) in table && table[AsUsize(h)].res.Window? && stillOpen
    {
      var id := AsUsize(h);
      if id in table && table[id].res.Window? {
        open := stillOpen;
      } else {
        open := false;
      }
    }

    /** Creates a file (`created` says whether the file system let it).
        The handle is taken either way. */
    method FileCreate(created: bool) returns (h: int, d: Diagnostic)
      requires Valid()
      modifies this
      ensures Valid()
      ensures nextId == old(nextId) + 1
      ensures created ==> h == old(nextId) && d == Quiet && table == old(table)[h := Entry(File([]), 1)]
      ensures !created ==> h == -1 && d == CreateFailed && table == old(table)
    {
      var id := nextId;
      nextId := nextId + 1;
      if created {
        table := table[id := Entry(File([]), 1)];
        h, d := id, Quiet;
      } else {
        h, d := -1, CreateFailed;
      }
    }

    /** Writes `content` to a file (`accepted` says whether the file
        system took it). */
    method FileWrite(h: i64, content: string, accepted: bool) returns (d: Diagnostic)
      requires Valid()
      modifies this
      ensures Valid()
      ensures nextId == old(nextId)
      ensures table == (if accepted then Written(old(table), AsUsize(h), content) else old(table))
      ensures d == (if AsUsize(h) !in old(table) then NotFound
                    else if !old(table)[AsUsize(h)].res.File? then WrongKind
                    else if accepted then Quiet else WriteFailed)
    {
      var id := AsUsize(h);
      if id in table {
        if table[id].res.File? {
          if accepted {
            table := table[id := table[id].(res := File(table[id].res.written + content))];
            d := Quiet;
          } else {
            d := WriteFailed;
          }
        } else {
          d := WrongKind;
        }
      } else {
        d := NotFound;
      }
    }

    /** Sets up a GPU context (`ready` says whether an adapter and a
        device were found). A handle is taken only on success. */
    method GpuInit(ready: bool) returns (h: int, d: Diagnostic)
      requires Valid()
      modifies this
      ensures Valid()
      ensures ready ==> h == old(nextId) && nextId == old(nextId) + 1 && d == Quiet
      ensures ready ==> table == old(table)[h := Entry(GpuContext, 1)]
      ensures !ready ==> h == -1 && d == CreateFailed && table == old(table) && nextId == old(nextId)
    {
      if !ready {
        return -1, CreateFailed;
      }
      h := Allocate(GpuContext);
      d := Quiet;
    }

    /** Paints a window's whole framebuffer one colour. */
    method FillColor(h: i64, r: i64, g: i64, b: i64) returns (d: Diagnostic)
      requires Valid()
      modifies this
      ensures Valid()
      ensures table == Filled(old(table), AsUsize(h), PackColor(r as int, g as int, b as int))
      ensures nextId == old(nextId)
      ensures d == (if AsUsize(h) !in old(table) then NotFound
                    else if old(table)[AsUsize(h)].res.Window? then Quiet else WrongKind)
    {
      var id := AsUsize(h);
      var color := PackColor(r as int, g as int, b as int);
      if id !in table {
        return NotFound;
      }
      if !table[id].res.Window? {
        return WrongKind;
      }
      var buf := table[id].res.buffer;
      var i := 0;
      while i < |buf|
        invariant 0 <= i <= |buf| == |table[id].res.buffer|
        invariant forall j :: 0 <= j < i ==> buf[j] == color
      {
        buf := buf[i := color];
        i := i + 1;
      }
      assert buf == seq(|buf|, _ => color);
      table := table[id := table[id].(res := table[id].res.(buffer := buf))];
      d := Quiet;
    }

    /** Opens a voxel world's window (`windowOk` says whether the windowing
        library managed it). A handle is taken only on success. */
    method VoxelWorldCreate(width: i64, height: i64, windowOk: bool) returns (h: int, d: Diagnostic)
      requires Valid()
      modifies this
      ensures Valid()
      ensures windowOk ==> h == old(nextId) && nextId == old(nextId) + 1 && d == Quiet
      ensures windowOk ==> table == old(table)[h := Entry(VoxelWorld(
        seq(AsUsize(width) * AsUsize(height), _ => VoxelBackground), AsUsize(width), AsUsize(height), []), 1)]
      ensures !windowOk ==> h == -1 && d == CreateFailed && table == old(table) && nextId == old(nextId)
    {
      var w := AsUsize(width);
      var ht := AsUsize(height);
      var pixels := seq(w * ht, _ => VoxelBackground);
      if !windowOk {
        return -1, CreateFailed;
      }
      h := Allocate(VoxelWorld(pixels, w, ht, []));
      d := Quiet;
    }

    /** Adds a block to a voxel world; any other handle is ignored
        without a message. */
    method VoxelAddBlock(h: i64, x: i64, y: i64, z: i64)
      requires Valid()
      modifies this
      ensures Valid()
      ensures table == WithBlock(old(table), AsUsize(h), x as int, y as int, z as int)
      ensures nextId == old(nextId)
    {
      var id := AsUsize(h);
      if id in table && table[id].res.VoxelWorld? {
        var v := table[id].res;
        table := table[id := table[id].(res := v.(voxels := v.voxels + [Voxel(AsI32(x as int), AsI32(y as int), AsI32(z as int))]))];
      }
    }
  }

  /** A counter's life: created as handle 1, incremented three times, read
      back as 3, released (its only reference) and then read as `-1`, the
      last read reporting the handle as not found. */
  method CounterLifecycle() returns (first: int, afterRelease: int, d: Diagnostic)
    ensures first == 3 && afterRelease == -1
    ensures d == NotFound
  {
    var reg := new HandleRegistry();
    var h := reg.CreateCounter();
    assert h == 1;
    d := reg.Increment(1);
    d := reg.Increment(1);
    d := reg.Increment(1);
    first, d := reg.GetValue(1);
    reg.Release(1);
    afterRelease, d := reg.GetValue(1);
  }

  /** Handles are handed out in increasing order across resource kinds, a
      failed file creation still uses one up, and a failed GPU set-up
      does not. */
  method HandleOrder() returns (a: int, b: int, c: int)
    ensures a == 1 && b == 3 && c == 4
  {
    var reg := new HandleRegistry();
    a := reg.CreateCounter();
    var failed, d := reg.FileCreate(false);
    var none, d' := reg.GpuInit(false);
    b := reg.Now();
    c, d := reg.FileCreate(true);
  }
}
