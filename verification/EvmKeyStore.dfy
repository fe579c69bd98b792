/** The EVM key store: a map from addresses to private keys that hides the default key under a sentinel
    address, with a cached default, and the file it is saved to. */
module EvmKeyStore {
  import opened Bytes
  import opened Wrappers

  type KeyInfo = seq<Byte>

  /** How an address is derived from a private key, the sentinel address, and how addresses are printed. */
  datatype Scheme<!K(!new)> = Scheme(derive: KeyInfo -> Option<K>, sentinel: K, show: K -> string) {
    /** No private key derives to the sentinel, and no other address prints like it. */
    ghost predicate Sane() {
      && (forall info :: derive(info) != Some(sentinel))
      && (forall k :: show(k) == show(sentinel) ==> k == sentinel)
    }
  }

  datatype Store<K> = Store(data: map<K, KeyInfo>, default: Option<K>)

  datatype Op<K> = Put(info: KeyInfo) | Remove(key: K) | SetDefault(key: K) | GetDefault

  /** `Unit`: success without a value. `Failure`: the call returned an error. */
  datatype Answer<K> = Unit | Key(key: K) | Default(which: Option<K>) | Failure

  function Empty<K>(): Store<K> {
    Store(map[], None)
  }

  /** What each call does to the store. */
  function Apply<K(==,!new)>(sc: Scheme<K>, st: Store<K>, op: Op<K>): (Store<K>, Answer<K>) {
    match op
    case Put(info) =>
      (match sc.derive(info)
       case None => (st, Failure)
       case Some(a) => (st.(data := st.data[a := info]), Key(a)))
    case Remove(a) =>
      (if st.default == Some(a) then Store(st.data - {sc.sentinel} - {a}, None) else st.(data := st.data - {a}), Unit)
    case SetDefault(a) =>
      if a in st.data then (Store(st.data[sc.sentinel := st.data[a]], Some(a)), Unit) else (st, Failure)
    case GetDefault =>
      if st.default.None? && sc.sentinel in st.data then
        (match sc.derive(st.data[sc.sentinel])
         case None => (st, Failure)
         case Some(a) => (st.(default := Some(a)), Default(Some(a))))
      else (st, Default(st.default))
  }

  // ---------------------------------------------------------------- invariant

  /** Every key but the sentinel is the address of its own private key. There is a cached default exactly
      when there is a sentinel entry; it is then the address of that entry, and is itself stored. */
  ghost predicate Inv<K(!new)>(sc: Scheme<K>, st: Store<K>) {
    && (forall k :: k in st.data && k != sc.sentinel ==> sc.derive(st.data[k]) == Some(k))
    && (st.default.Some? <==> sc.sentinel in st.data)
    && (st.default.Some? ==>
          && st.default.value in st.data && st.default.value != sc.sentinel
          && sc.derive(st.data[sc.sentinel]) == st.default)
  }

  predicate NamesSentinel<K(==,!new)>(sc: Scheme<K>, op: Op<K>) {
    (op.Remove? || op.SetDefault?) && op.key == sc.sentinel
  }

  /** One call keeps the invariant exactly when it does not reach into the sentinel entry: naming the
      sentinel breaks the store as soon as there is such an entry, and is harmless before. */
  lemma CallKeepsInvExactly<K(!new)>(sc: Scheme<K>, st: Store<K>, op: Op<K>)
    requires sc.Sane() && Inv(sc, st)
    ensures Inv(sc, Apply(sc, st, op).0) <==> !(NamesSentinel(sc, op) && sc.sentinel in st.data)
  {
  }

  function After<K(==,!new)>(sc: Scheme<K>, st: Store<K>, ops: seq<Op<K>>): Store<K> {
    if ops == [] then st else Apply(sc, After(sc, st, ops[..|ops| - 1]), ops[|ops| - 1]).0
  }

  /** The invariant holds after every sequence of calls none of which names the sentinel. */
  lemma {:induction false} RunKeepsInv<K(!new)>(sc: Scheme<K>, ops: seq<Op<K>>)
    requires sc.Sane() && forall op :: op in ops ==> !NamesSentinel(sc, op)
    ensures Inv(sc, After(sc, Empty(), ops))
    decreases |ops|
  {
    if ops != [] {
      RunKeepsInv(sc, ops[..|ops| - 1]);
      CallKeepsInvExactly(sc, After(sc, Empty(), ops[..|ops| - 1]), ops[|ops| - 1]);
    }
  }

  // ---------------------------------------------------------------- what users see

  /** The store without the sentinel trick: keys, and which of them is the default. */
  datatype View<K> = View(keys: map<K, KeyInfo>, default: Option<K>)

  function ViewOf<K(==,!new)>(sc: Scheme<K>, st: Store<K>): View<K> {
    View(st.data - {sc.sentinel}, st.default)
  }

  function ApplyView<K(==,!new)>(sc: Scheme<K>, v: View<K>, op: Op<K>): (View<K>, Answer<K>) {
    match op
    case Put(info) =>
      (match sc.derive(info)
       case None => (v, Failure)
       case Some(a) => (v.(keys := v.keys[a := info]), Key(a)))
    case Remove(a) => (View(v.keys - {a}, if v.default == Some(a) then None else v.default), Unit)
    case SetDefault(a) => if a in v.keys then (v.(default := Some(a)), Unit) else (v, Failure)
    case GetDefault => (v, Default(v.default))
  }

  /** The sentinel trick is invisible: every call gives the answer, and has the effect, that it would have
      on a plain map with a default beside it. */
  lemma StoreRefinesView<K(!new)>(sc: Scheme<K>, st: Store<K>, op: Op<K>)
    requires sc.Sane() && Inv(sc, st) && !NamesSentinel(sc, op)
    ensures ViewOf(sc, Apply(sc, st, op).0) == ApplyView(sc, ViewOf(sc, st), op).0
    ensures Apply(sc, st, op).1 == ApplyView(sc, ViewOf(sc, st), op).1
  {
  }

  /** What a call does to one key: a put stores exactly its key under the address that derives from it, a
      removal removes exactly its key, and nothing else touches any. Only puts and settings of a default can be
      refused, when no address derives or the address is not stored. */
  lemma KeyAfterCall<K(!new)>(sc: Scheme<K>, st: Store<K>, op: Op<K>, k: K)
    requires sc.Sane() && Inv(sc, st) && !NamesSentinel(sc, op) && k != sc.sentinel
    ensures var (st', r) := Apply(sc, st, op);
            && (r == Failure <==> (op.Put? && sc.derive(op.info).None?) || (op.SetDefault? && op.key !in st.data))
            && (op.Put? && r != Failure ==> sc.derive(op.info) == Some(r.key))
            && (if op.Put? && sc.derive(op.info) == Some(k) then k in st'.data && st'.data[k] == op.info
                else if op.Remove? && op.key == k then k !in st'.data
                else (k in st'.data <==> k in st.data) && (k in st.data ==> st'.data[k] == st.data[k]))
  {
  }

  /** Removing the default clears both entries; a new default answers the next query, also from a store
      that has lost its cache. */
  lemma DefaultLaws<K(!new)>(sc: Scheme<K>, st: Store<K>, a: K)
    requires sc.Sane() && Inv(sc, st) && a != sc.sentinel
    ensures var st' := Apply(sc, st, Remove(a)).0;
            && a !in st'.data
            && (st.default == Some(a) ==> sc.sentinel !in st'.data && Apply(sc, st', GetDefault).1 == Default(None))
    ensures a in st.data ==>
              var st' := Apply(sc, st, SetDefault(a)).0;
              && Apply(sc, st', GetDefault).1 == Default(Some(a))
              && Apply(sc, st'.(default := None), GetDefault) == (st', Default(Some(a)))
  {
  }

  // ---------------------------------------------------------------- the file

  datatype Record = Record(address: string, privateKey: string)

  /** `Damaged`: writing broke off after the file had been truncated. */
  datatype File = Missing | Records(records: seq<Record>) | Damaged

  function ToRecord<K(!new)>(sc: Scheme<K>, k: K, info: KeyInfo): Record {
    Record(sc.show(k), HexEncode(info))
  }

  /** An order in which each key of the map is visited once. */
  ghost predicate Enumerates<K(!new)>(order: seq<K>, data: map<K, KeyInfo>) {
    && (forall k :: k in order <==> k in data)
    && (forall i, j :: 0 <= i < j < |order| ==> order[i] != order[j])
  }

  /** The file written when the hash map happens to be visited in this order. */
  function Write<K(==,!new)>(sc: Scheme<K>, data: map<K, KeyInfo>, order: seq<K>): seq<Record>
    requires forall i :: 0 <= i < |order| ==> order[i] in data
  {
    seq(|order|, i requires 0 <= i < |order| => ToRecord(sc, order[i], data[order[i]]))
  }

  /** The key and private key of one record; the address is derived again unless it is the sentinel's. */
  function ReadRecord<K(==,!new)>(sc: Scheme<K>, r: Record): Option<(K, KeyInfo)> {
    match HexDecode(r.privateKey)
    case None => None
    case Some(info) =>
      if r.address == sc.show(sc.sentinel) then Some((sc.sentinel, info))
      else
        match sc.derive(info)
        case None => None
        case Some(a) => Some((a, info))
  }

  function ReadRecords<K(==,!new)>(sc: Scheme<K>, rs: seq<Record>): Option<map<K, KeyInfo>> {
    if rs == [] then Some(map[])
    else
      match (ReadRecords(sc, rs[..|rs| - 1]), ReadRecord(sc, rs[|rs| - 1]))
      case (Some(data), Some((k, info))) => Some(data[k := info])
      case _ => None
  }

  function FinishLoad<K(==,!new)>(sc: Scheme<K>, data: map<K, KeyInfo>): Option<Store<K>> {
    if sc.sentinel !in data then Some(Store(data, None))
    else
      match sc.derive(data[sc.sentinel])
      case None => None
      case Some(a) => Some(Store(data, Some(a)))
  }

  function Load<K(==,!new)>(sc: Scheme<K>, file: File): Option<Store<K>> {
    match file
    case Missing => Some(Empty())
    case Damaged => None
    case Records(rs) =>
      match ReadRecords(sc, rs)
      case None => None
      case Some(data) => FinishLoad(sc, data)
  }

  /** One record is readable exactly if its key text decodes and it is the sentinel's, or an address derives; it
      becomes the entry of the sentinel or of that address. */
  ghost predicate Readable<K(!new)>(sc: Scheme<K>, r: Record) {
    var info := HexDecode(r.privateKey);
    info.Some? && (r.address == sc.show(sc.sentinel) || sc.derive(info.value).Some?)
  }

  ghost function KeyOfRecord<K(!new)>(sc: Scheme<K>, r: Record): K
    requires Readable(sc, r)
  {
    if r.address == sc.show(sc.sentinel) then sc.sentinel else sc.derive(HexDecode(r.privateKey).value).value
  }

  /** Records are readable together exactly if each is, and then each becomes an entry unless a later one has
      the same key. */
  lemma {:induction false} ReadRecordsExactly<K(!new)>(sc: Scheme<K>, rs: seq<Record>)
    ensures ReadRecords(sc, rs).Some? <==> forall i :: 0 <= i < |rs| ==> Readable(sc, rs[i])
    decreases |rs|
  {
    if rs != [] {
      var n := |rs| - 1;
      ReadRecordsExactly(sc, rs[..n]);
      assert forall i :: 0 <= i < n ==> rs[..n][i] == rs[i];
    }
  }

  lemma {:induction false} RecordsBecomeEntries<K(!new)>(sc: Scheme<K>, rs: seq<Record>, i: nat)
    requires ReadRecords(sc, rs).Some? && i < |rs| && forall j :: 0 <= j < |rs| ==> Readable(sc, rs[j])
    requires forall j :: i < j < |rs| ==> KeyOfRecord(sc, rs[j]) != KeyOfRecord(sc, rs[i])
    ensures var data, k := ReadRecords(sc, rs).value, KeyOfRecord(sc, rs[i]);
            k in data && Some(data[k]) == HexDecode(rs[i].privateKey)
    decreases |rs|
  {
    var n := |rs| - 1;
    if i < n {
      assert forall j :: 0 <= j < n ==> rs[..n][j] == rs[j];
      RecordsBecomeEntries(sc, rs[..n], i);
    }
  }

  /** Every entry comes from a record, the last one with its key. */
  lemma {:induction false} EntriesComeFromRecords<K(!new)>(sc: Scheme<K>, rs: seq<Record>, k: K) returns (i: nat)
    requires ReadRecords(sc, rs).Some? && k in ReadRecords(sc, rs).value
    requires forall j :: 0 <= j < |rs| ==> Readable(sc, rs[j])
    ensures i < |rs| && KeyOfRecord(sc, rs[i]) == k && Some(ReadRecords(sc, rs).value[k]) == HexDecode(rs[i].privateKey)
    ensures forall j :: i < j < |rs| ==> KeyOfRecord(sc, rs[j]) != k
    decreases |rs|
  {
    var n := |rs| - 1;
    if KeyOfRecord(sc, rs[n]) == k {
      i := n;
    } else {
      assert forall j :: 0 <= j < n ==> rs[..n][j] == rs[j];
      i := EntriesComeFromRecords(sc, rs[..n], k);
    }
  }

  /** A store opens from a missing file, empty; from no damaged file; and from a file of records exactly if each
      is readable and, if there is a sentinel's, an address derives from the last such. */
  lemma LoadsExactly<K(!new)>(sc: Scheme<K>, file: File)
    ensures file.Missing? ==> Load(sc, file) == Some(Store(map[], None))
    ensures file.Damaged? ==> Load(sc, file).None?
    ensures file.Records? ==>
              (Load(sc, file).Some? <==>
               && (forall i :: 0 <= i < |file.records| ==> Readable(sc, file.records[i]))
               && (forall i :: 0 <= i < |file.records| && LastDefault(sc, file.records, i) ==>
                                 sc.derive(HexDecode(file.records[i].privateKey).value).Some?))
  {
    if file.Records? {
      ReadRecordsExactly(sc, file.records);
      if ReadRecords(sc, file.records).Some? {
        LoadsRecordsExactly(sc, file.records);
      }
    }
  }

  /** The i-th record is the last one of the sentinel. */
  ghost predicate LastDefault<K(!new)>(sc: Scheme<K>, rs: seq<Record>, i: nat)
    requires i < |rs|
  {
    && Readable(sc, rs[i]) && rs[i].address == sc.show(sc.sentinel)
    && forall j :: i < j < |rs| ==> Readable(sc, rs[j]) && KeyOfRecord(sc, rs[j]) != sc.sentinel
  }

  lemma {:induction false} LoadsRecordsExactly<K(!new)>(sc: Scheme<K>, rs: seq<Record>)
    requires ReadRecords(sc, rs).Some? && forall i :: 0 <= i < |rs| ==> Readable(sc, rs[i])
    ensures FinishLoad(sc, ReadRecords(sc, rs).value).Some? <==>
            forall i :: 0 <= i < |rs| && LastDefault(sc, rs, i) ==> sc.derive(HexDecode(rs[i].privateKey).value).Some?
  {
    var data := ReadRecords(sc, rs).value;
    forall i | 0 <= i < |rs| && LastDefault(sc, rs, i)
      ensures sc.sentinel in data && Some(data[sc.sentinel]) == HexDecode(rs[i].privateKey) {
      RecordsBecomeEntries(sc, rs, i);
    }
    if sc.sentinel in data && sc.derive(data[sc.sentinel]).None? {
      var i := EntriesComeFromRecords(sc, rs, sc.sentinel);
      assert LastDefault(sc, rs, i);
    }
  }

  lemma RecordRoundTrip<K(!new)>(sc: Scheme<K>, st: Store<K>, k: K)
    requires sc.Sane() && Inv(sc, st) && k in st.data
    ensures ReadRecord(sc, ToRecord(sc, k, st.data[k])) == Some((k, st.data[k]))
  {
    HexRoundTrip(st.data[k]);
  }

  lemma {:induction false} RecordsRoundTrip<K(!new)>(sc: Scheme<K>, st: Store<K>, order: seq<K>)
    requires sc.Sane() && Inv(sc, st) && forall i :: 0 <= i < |order| ==> order[i] in st.data
    ensures ReadRecords(sc, Write(sc, st.data, order)) == Some(map k | k in order :: st.data[k])
    decreases |order|
  {
    if order != [] {
      var init, last := order[..|order| - 1], order[|order| - 1];
      RecordsRoundTrip(sc, st, init);
      RecordRoundTrip(sc, st, last);
      var rs := Write(sc, st.data, order);
      assert rs[..|rs| - 1] == Write(sc, st.data, init);
      assert (map k | k in order :: st.data[k]) == (map k | k in init :: st.data[k])[last := st.data[last]];
    }
  }

  /** Reopening the file gives back the same keys and the same default, whatever order the map was
      visited in when it was written. */
  lemma ReopenGivesSameStore<K(!new)>(sc: Scheme<K>, st: Store<K>, order: seq<K>)
    requires sc.Sane() && Inv(sc, st) && forall k :: k in order <==> k in st.data
    ensures Load(sc, Records(Write(sc, st.data, order))) == Some(st)
  {
    RecordsRoundTrip(sc, st, order);
    assert (map k | k in order :: st.data[k]) == st.data;
  }

  // ---------------------------------------------------------------- the objects

  class MemoryKeyStore<K(==,!new)> {
    const sc: Scheme<K>
    var data: map<K, KeyInfo>
    var default: Option<K>

    ghost function State(): Store<K>
      reads this
    {
      Store(data, default)
    }

    constructor (sc: Scheme<K>, data: map<K, KeyInfo>, default: Option<K>)
      ensures this.sc == sc && State() == Store(data, default)
    {
      this.sc, this.data, this.default := sc, data, default;
    }

    /** In a sound store this is the lookup in the plain map, and finds the private key of that address. */
    method Get(addr: K) returns (r: Option<KeyInfo>)
      ensures r == if addr in data then Some(data[addr]) else None
      ensures addr != sc.sentinel ==>
                var keys := ViewOf(sc, State()).keys;
                r == if addr in keys then Some(keys[addr]) else None
      ensures Inv(sc, State()) && addr != sc.sentinel && r.Some? ==> sc.derive(r.value) == Some(addr)
    {
      r := if addr in data then Some(data[addr]) else None;
    }

    method Put(info: KeyInfo) returns (r: Answer<K>)
      modifies this
      ensures (State(), r) == Apply(sc, old(State()), Op.Put(info))
    {
      var addr := sc.derive(info);
      if addr.None? {
        return Failure;
      }
      data := data[addr.value := info];
      r := Key(addr.value);
    }

    /** Calls itself on the sentinel when the default is removed; the default is gone by then. */
    method Remove(addr: K)
      modifies this
      ensures State() == Apply(sc, old(State()), Op.Remove(addr)).0
      decreases default.Some?
    {
      if default == Some(addr) {
        default := None;
        Remove(sc.sentinel);
      }
      data := data - {addr};
    }

    method SetDefault(addr: K) returns (r: Answer<K>)
      modifies this
      ensures (State(), r) == Apply(sc, old(State()), Op.SetDefault(addr))
    {
      var info := Get(addr);
      if info.None? {
        return Failure;
      }
      data := data[sc.sentinel := info.value];
      default := Some(addr);
      r := Unit;
    }

    method GetDefault() returns (r: Answer<K>)
      modifies this
      ensures (State(), r) == Apply(sc, old(State()), Op.GetDefault)
    {
      if default.None? {
        var info := Get(sc.sentinel);
        if info.Some? {
          var addr := sc.derive(info.value);
          if addr.None? {
            return Failure;
          }
          default := addr;
        }
      }
      r := Default(default);
    }
  }

  /** What happens to a write: it completes, the file cannot be created, or writing breaks off. */
  datatype Disk = Completes | CannotCreate | BreaksOff

  class PersistentKeyStore<K(==,!new)> {
    const sc: Scheme<K>
    const memory: MemoryKeyStore<K>
    var file: File

    ghost predicate Valid() {
      memory.sc == sc
    }

    ghost predicate Sound()
      reads memory
    {
      sc.Sane() && Inv(sc, memory.State())
    }

    /** Reopening the file now would give the store in memory. */
    ghost predicate Saved()
      reads this, memory
    {
      Load(sc, file) == Some(memory.State())
    }

    /** Opens a store; a missing file is an empty one. */
    static method Open(sc: Scheme<K>, file: File) returns (r: Option<PersistentKeyStore<K>>)
      ensures r.Some? <==> Load(sc, file).Some?
      ensures file.Missing? ==> r.Some? && r.value.memory.State() == Store(map[], None)
      ensures file.Damaged? ==> r.None?
      ensures r.Some? ==> fresh(r.value) && fresh(r.value.memory) && r.value.sc == sc && r.value.memory.sc == sc
                          && r.value.Valid() && r.value.file == file && r.value.Saved()
    {
      var data: Option<map<K, KeyInfo>> := Some(map[]);
      if file.Damaged? {
        return None;
      }
      if file.Records? {
        data := ReadAll(sc, file.records);
      }
      if data.None? {
        return None;
      }
      var store := FinishLoad(sc, data.value);
      if store.None? {
        return None;
      }
      var memory := new MemoryKeyStore(sc, data.value, store.value.default);
      var result := new PersistentKeyStore.Over(sc, memory, file);
      r := Some(result);
    }

    constructor Over(sc: Scheme<K>, memory: MemoryKeyStore<K>, file: File)
      ensures this.sc == sc && this.memory == memory && this.file == file
    {
      this.sc, this.memory, this.file := sc, memory, file;
    }

    /** Writes the map in whatever order it is visited. */
    method Flush(disk: Disk) returns (ok: bool)
      requires Valid()
      modifies this`file
      ensures ok == disk.Completes?
      ensures ok && Sound() ==> Saved()
      ensures ok ==> exists order :: Enumerates(order, memory.data) && file == Records(Write(sc, memory.data, order))
      ensures disk.CannotCreate? ==> file == old(file)
      ensures disk.BreaksOff? ==> file == Damaged
    {
      if disk.CannotCreate? {
        return false;
      }
      if disk.BreaksOff? {
        file := Damaged;
        return false;
      }
      var records := [];
      ghost var order: seq<K> := [];
      var left := memory.data.Keys;
      while left != {}
        invariant left <= memory.data.Keys
        invariant forall i :: 0 <= i < |order| ==> order[i] in memory.data
        invariant forall k :: k in order <==> k in memory.data.Keys - left
        invariant forall i, j :: 0 <= i < j < |order| ==> order[i] != order[j]
        invariant records == Write(sc, memory.data, order)
        decreases left
      {
        var k :| k in left;
        assert k !in order;
        records := records + [ToRecord(sc, k, memory.data[k])];
        order := order + [k];
        left := left - {k};
      }
      assert Enumerates(order, memory.data);
      file := Records(records);
      if Sound() {
        ReopenGivesSameStore(sc, memory.State(), order);
      }
      ok := true;
    }

    // Every mutating call is the call on the store in memory followed by a write. Whenever it reports
    // success the file on disk reopens as exactly that store, as long as the store is sound, which it
    // stays exactly until a call reaches into the sentinel entry.

    method Put(info: KeyInfo, disk: Disk) returns (r: Answer<K>)
      requires Valid()
      modifies this`file, memory
      ensures memory.State() == Apply(sc, old(memory.State()), Op.Put(info)).0
      ensures old(Sound()) ==> Sound()
      ensures r == if disk.Completes? then Apply(sc, old(memory.State()), Op.Put(info)).1 else Failure
      ensures !r.Failure? && Sound() ==> Saved()
      ensures Apply(sc, old(memory.State()), Op.Put(info)).1.Failure? || disk.CannotCreate? ==> file == old(file)
    {
      if Sound() {
        CallKeepsInvExactly(sc, memory.State(), Op.Put(info));
      }
      r := memory.Put(info);
      if !r.Failure? {
        var ok := Flush(disk);
        r := if ok then r else Failure;
      }
    }

    method Remove(addr: K, disk: Disk) returns (r: Answer<K>)
      requires Valid()
      modifies this`file, memory
      ensures memory.State() == Apply(sc, old(memory.State()), Op.Remove(addr)).0
      ensures old(Sound()) ==> (Sound() <==> !(addr == sc.sentinel && sc.sentinel in old(memory.data)))
      ensures r == if disk.Completes? then Apply(sc, old(memory.State()), Op.Remove(addr)).1 else Failure
      ensures !r.Failure? && Sound() ==> Saved()
      ensures Apply(sc, old(memory.State()), Op.Remove(addr)).1.Failure? || disk.CannotCreate? ==> file == old(file)
    {
      if Sound() {
        CallKeepsInvExactly(sc, memory.State(), Op.Remove(addr));
      }
      memory.Remove(addr);
      var ok := Flush(disk);
      r := if ok then Unit else Failure;
    }

    method SetDefault(addr: K, disk: Disk) returns (r: Answer<K>)
      requires Valid()
      modifies this`file, memory
      ensures memory.State() == Apply(sc, old(memory.State()), Op.SetDefault(addr)).0
      ensures old(Sound()) ==> (Sound() <==> !(addr == sc.sentinel && sc.sentinel in old(memory.data)))
      ensures r == if disk.Completes? then Apply(sc, old(memory.State()), Op.SetDefault(addr)).1 else Failure
      ensures !r.Failure? && Sound() ==> Saved()
      ensures Apply(sc, old(memory.State()), Op.SetDefault(addr)).1.Failure? || disk.CannotCreate? ==> file == old(file)
    {
      if Sound() {
        CallKeepsInvExactly(sc, memory.State(), Op.SetDefault(addr));
      }
      r := memory.SetDefault(addr);
      if !r.Failure? {
        var ok := Flush(disk);
        r := if ok then r else Failure;
      }
    }

    method GetDefault(disk: Disk) returns (r: Answer<K>)
      requires Valid()
      modifies this`file, memory
      ensures memory.State() == Apply(sc, old(memory.State()), Op.GetDefault).0
      ensures old(Sound()) ==> Sound()
      ensures r == if disk.Completes? then Apply(sc, old(memory.State()), Op.GetDefault).1 else Failure
      ensures !r.Failure? && Sound() ==> Saved()
      ensures Apply(sc, old(memory.State()), Op.GetDefault).1.Failure? || disk.CannotCreate? ==> file == old(file)
    {
      if Sound() {
        CallKeepsInvExactly(sc, memory.State(), Op.GetDefault);
      }
      r := memory.GetDefault();
      if !r.Failure? {
        var ok := Flush(disk);
        r := if ok then r else Failure;
      }
    }
  }

  /** Fills a map record by record; the first bad record ends it. */
  method ReadAll<K(==,!new)>(sc: Scheme<K>, rs: seq<Record>) returns (r: Option<map<K, KeyInfo>>)
    ensures r == ReadRecords(sc, rs)
  {
    var data: map<K, KeyInfo> := map[];
    var i := 0;
    while i < |rs|
      invariant 0 <= i <= |rs| && ReadRecords(sc, rs[..i]) == Some(data)
    {
      var entry := ReadRecord(sc, rs[i]);
      assert rs[..i + 1][..i] == rs[..i];
      if entry.None? {
        BadRecordFails(sc, rs, i);
        return None;
      }
      data := data[entry.value.0 := entry.value.1];
      i := i + 1;
    }
    assert rs[..i] == rs;
    r := Some(data);
  }

  lemma {:induction false} BadRecordFails<K(!new)>(sc: Scheme<K>, rs: seq<Record>, i: nat)
    requires i < |rs| && ReadRecord(sc, rs[i]).None?
    ensures ReadRecords(sc, rs).None?
    decreases |rs|
  {
    if i < |rs| - 1 {
      BadRecordFails(sc, rs[..|rs| - 1], i);
    }
  }
}
