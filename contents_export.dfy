/**
 * The export of captured contents to an external filesystem: a byte buffer
 * cached with a capacity policy, and a one-time filesystem set-up that
 * spends a retry budget, numbers export directories from an info file and
 * builds the export path.
 *
 * The external filesystem is abstracted: each of its calls becomes an
 * outcome given as a parameter (`InitIo`, `CommitIo`).
 */
module ContentsExport {
  import opened MaTypes

  // ---------------------------------------------------------------------------
  // Buffer capacity policy
  // ---------------------------------------------------------------------------

  /** Whether `cache` allocates a new buffer for `size` bytes. */
  predicate Reallocates(hasData: bool, capacity: nat, size: nat, trigger: nat)
  {
    !hasData || size > capacity || size + trigger < capacity
  }

  /**
   * The capacity after caching `size` bytes: a new buffer holds
   * `size + (trigger >> 1)`; otherwise the capacity is kept. Either way the
   * bytes fit, and the capacity stays within `trigger` of the size.
   */
  function NewCapacity(hasData: bool, capacity: nat, size: nat, trigger: nat): (r: nat)
    ensures size <= r <= size + trigger
    ensures !hasData ==> r == size + trigger / 2
    ensures r != capacity ==> Reallocates(hasData, capacity, size, trigger)
  {
    if Reallocates(hasData, capacity, size, trigger) then size + trigger / 2 else capacity
  }

  /** Caching the same size again with the same trigger keeps the buffer. */
  lemma CapacityStable(hasData: bool, capacity: nat, size: nat, trigger: nat)
    ensures !Reallocates(true, NewCapacity(hasData, capacity, size, trigger), size, trigger)
  {
  }

  /**
   * `cache` as written. In the reallocation branch the new buffer is bound
   * to a local that shadows the member, so the member keeps the buffer just
   * deleted while the recorded capacity becomes the new one; the copy then
   * goes to the member.
   */
  datatype Block = Block(capacity: nat, live: bool)
  datatype CacheState = CacheState(data: Option<Block>, size: nat, bytes: nat)

  /** A state where the member buffer is live and as large as recorded. */
  predicate Coherent(st: CacheState)
  {
    match st.data
    case None => st.size == 0 && st.bytes == 0
    case Some(b) => b.live && b.capacity == st.size && st.bytes <= st.size
  }

  /**
   * The recorded capacity follows the capacity policy, but after a
   * reallocation the member still points at the deleted buffer.
   */
  function CacheAsWritten(st: CacheState, size: nat, trigger: nat): (r: CacheState)
    ensures r.bytes == size
    ensures Coherent(st) ==> r.size == NewCapacity(st.data.Some?, st.size, size, trigger)
    ensures st.data.Some? && Reallocates(true, st.size, size, trigger) ==> r.data.Some? && !r.data.value.live
  {
    match st.data
    case None => CacheState(Some(Block(size + trigger / 2, true)), size + trigger / 2, size)
    case Some(b) =>
      if size > st.size || size + trigger < st.size then
        CacheState(Some(Block(b.capacity, false)), size + trigger / 2, size)
      else CacheState(st.data, st.size, size)
  }

  /** Whether the copy of `bytes` bytes lands inside a live buffer. */
  predicate CopyIsSafe(st: CacheState)
  {
    st.data.Some? && st.data.value.live && st.bytes <= st.data.value.capacity
  }

  /** As written, the copy is safe exactly when no reallocation happens. */
  lemma CacheAsWrittenSafeIff(st: CacheState, size: nat, trigger: nat)
    requires Coherent(st)
    ensures CopyIsSafe(CacheAsWritten(st, size, trigger))
        <==> !Reallocates(st.data.Some?, st.size, size, trigger) || st.data.None?
    ensures Coherent(CacheAsWritten(st, size, trigger))
        <==> !Reallocates(st.data.Some?, st.size, size, trigger) || st.data.None?
  {
  }

  /**
   * Caching 10 bytes and then 6000 bytes with the default trigger of 10240:
   * the second copy goes to the freed 5130-byte buffer.
   */
  lemma CacheAsWrittenGrowthOverruns()
    ensures var first := CacheAsWritten(CacheState(None, 0, 0), 10, 10240);
            var second := CacheAsWritten(first, 6000, 10240);
            && CopyIsSafe(first)
            && second.data == Some(Block(5130, false))
            && second.size == 11120 && second.bytes == 6000
            && !CopyIsSafe(second)
  {
  }

  // ---------------------------------------------------------------------------
  // Decimal ids
  // ---------------------------------------------------------------------------

  function DigitChar(d: nat): (c: char)
    requires d < 10
    ensures IsDigit(c) && c as int - '0' as int == d
  {
    ('0' as int + d) as char
  }

  predicate AllDigits(s: string)
  {
    forall i :: 0 <= i < |s| ==> IsDigit(s[i])
  }

  /** `std::to_string` and `%ld` of a non-negative value. */
  function Decimal(n: nat): (r: string)
    ensures |r| >= 1 && AllDigits(r)
    ensures r[0] == '0' ==> n == 0
  {
    if n < 10 then [DigitChar(n)] else Decimal(n / 10) + [DigitChar(n % 10)]
  }

  /** The value of a run of decimal digits. */
  function DigitsValue(s: string): nat
    requires AllDigits(s)
  {
    if s == [] then 0 else DigitsValue(s[..|s| - 1]) * 10 + (s[|s| - 1] as int - '0' as int)
  }

  lemma {:induction false} DigitsValueDecimal(n: nat)
    ensures DigitsValue(Decimal(n)) == n
  {
    if n >= 10 {
      DigitsValueDecimal(n / 10);
      var s := Decimal(n);
      assert s[..|s| - 1] == Decimal(n / 10);
    }
  }

  function Pow10(k: nat): nat
  {
    if k == 0 then 1 else 10 * Pow10(k - 1)
  }

  /** A number below `10^k` takes at most `k` digits (one, for zero). */
  lemma {:induction false} DecimalLength(n: nat, k: nat)
    requires n < Pow10(k)
    ensures |Decimal(n)| <= if k == 0 then 1 else k
  {
    if n >= 10 {
      assert n / 10 < Pow10(k - 1);
      DecimalLength(n / 10, k - 1);
    }
  }

  /** C's `isspace` in the "C" locale. */
  predicate IsSpace(c: char)
  {
    c == ' ' || '\t' <= c <= '\r'
  }

  function SkipSpace(s: string): (r: string)
    ensures |r| <= |s| && r == s[|s| - |r|..]
    ensures r != [] ==> !IsSpace(r[0])
  {
    if s != [] && IsSpace(s[0]) then SkipSpace(s[1..]) else s
  }

  /** The longest prefix of `s` made of digits. */
  function LeadingDigits(s: string): (r: string)
    ensures AllDigits(r) && r <= s
    ensures |r| < |s| ==> !IsDigit(s[|r|])
  {
    if s == [] || !IsDigit(s[0]) then [] else [s[0]] + LeadingDigits(s[1..])
  }

  lemma {:induction false} LeadingDigitsAll(s: string)
    requires AllDigits(s)
    ensures LeadingDigits(s) == s
  {
    if s != [] {
      LeadingDigitsAll(s[1..]);
      assert [s[0]] + s[1..] == s;
    }
  }

  /** `std::atoi`: blanks, an optional sign, then the digits that follow; only a leading '-' gives a negative value. */
  function Atoi(s: string): (r: int)
    ensures r < 0 ==> SkipSpace(s) != [] && SkipSpace(s)[0] == '-'
  {
    var t := SkipSpace(s);
    if t != [] && t[0] == '-' then -(DigitsValue(LeadingDigits(t[1..])) as int)
    else if t != [] && t[0] == '+' then DigitsValue(LeadingDigits(t[1..]))
    else DigitsValue(LeadingDigits(t))
  }

  /** `atoi` reads back what `to_string` wrote. */
  lemma AtoiDecimal(n: nat)
    ensures Atoi(Decimal(n)) == n
  {
    LeadingDigitsAll(Decimal(n));
    DigitsValueDecimal(n);
  }

  function Min(a: nat, b: nat): nat { if a < b then a else b }

  /** The size of the info-file buffer. */
  const InfoBufferSize: nat := 64

  /** As written: up to 64 bytes are read, and the terminator goes at index `read`. */
  function InfoReadAsWritten(stored: string): (read: nat)
    ensures read <= |stored| && read <= InfoBufferSize
    ensures |stored| >= InfoBufferSize ==> read == InfoBufferSize
  {
    Min(|stored|, InfoBufferSize)
  }

  /** The terminator lands inside the 64-byte buffer exactly when the file is shorter than 64 bytes. */
  lemma InfoTerminatorInBoundsIff(stored: string)
    ensures InfoReadAsWritten(stored) < InfoBufferSize <==> |stored| < InfoBufferSize
  {
  }

  /** Reading at most 63 bytes leaves room for the terminator, and reads short files as before. */
  function InfoRead(stored: string): (read: nat)
    ensures read < InfoBufferSize
    ensures |stored| < InfoBufferSize ==> read == InfoReadAsWritten(stored)
  {
    Min(|stored|, InfoBufferSize - 1)
  }

  /**
   * The next export id, `atoi(stored) + 1` stored in a `size_t`: below 2^64,
   * one more than a stored id below 2^64 - 1, and 0 after a stored -1.
   */
  function NextId(stored: string): (r: nat)
    ensures r < Pow64
    ensures var v := Atoi(stored[..InfoRead(stored)]); 0 <= v < Pow64 - 1 ==> r == v + 1
    ensures Atoi(stored[..InfoRead(stored)]) == -1 ==> r == 0
  {
    var v := Atoi(stored[..InfoRead(stored)]);
    if 0 <= v + 1 < Pow64 then v + 1 else (v + 1) % Pow64
  }

  /** An `int` id fits the info buffer with room to spare. */
  lemma ShortDecimal(n: nat)
    requires n < 0x7fff_ffff
    ensures |Decimal(n)| <= 10
  {
    assert Pow10(10) == 10_000_000_000;
    DecimalLength(n, 10);
  }

  /** A short info file holding the number `v` yields `v + 1`. */
  lemma NextIdOfShort(s: string, v: nat)
    requires |s| < InfoBufferSize - 1 && Atoi(s) == v && v + 1 < Pow64
    ensures NextId(s) == v + 1
  {
    assert s[..InfoRead(s)] == s;
    assert (v + 1) % Pow64 == v + 1;
  }

  /** Reading back an id the program wrote gives the id after it. */
  lemma NextIdAfterDecimal(n: nat)
    requires n < 0x7fff_ffff
    ensures NextId(Decimal(n)) == n + 1
  {
    ShortDecimal(n);
    AtoiDecimal(n);
    NextIdOfShort(Decimal(n), n);
  }

  // ---------------------------------------------------------------------------
  // Filesystem set-up
  // ---------------------------------------------------------------------------

  /** The outcomes of the filesystem calls `init_filesystem` makes. */
  datatype InitIo = InitIo(
    available: bool,        // a filesystem driver exists
    mountOk: bool,
    exportDirExists: bool,
    mkdirExportOk: bool,
    infoExists: bool,
    infoOpenOk: bool,       // the first open of the info file
    infoStored: string,     // its contents, when it exists
    infoRewriteOk: bool,    // reopening and rewriting an existing info file
    idDirOk: bool)          // creating the numbered directory

  datatype InitResult = Ready | RetriesExhausted | NoFilesystem | IoFailed

  /** The fields `init_filesystem` reads and writes. */
  datatype InitState = InitState(retry: int, fsReady: bool, path: string)

  /** The id of this export: 0 with a new info file, else the stored id + 1. */
  function ExportId(io: InitIo): nat
  {
    if io.infoExists then NextId(io.infoStored) else 0
  }

  /**
   * What the info file holds after a successful set-up, for ids below 2^63
   * (the rewrite prints the `size_t` id with "%ld", which turns larger ids
   * negative).
   */
  function InfoWritten(io: InitIo): string
  {
    Decimal(ExportId(io))
  }

  /**
   * One call of `init_filesystem`: the budget drops by at most one; a missing
   * driver leaves the filesystem marked unavailable, while any later failure
   * leaves it marked available.
   */
  function InitSpec(st: InitState, device: string, io: InitIo): (r: (InitResult, InitState))
    ensures st.retry - 1 <= r.1.retry <= st.retry
    ensures r.0 == Ready ==> r.1.fsReady
    ensures r.0 == NoFilesystem ==> !r.1.fsReady
    ensures r.0 == IoFailed ==> r.1.fsReady
  {
    if st.fsReady then (Ready, st)
    else if st.retry <= 0 then (RetriesExhausted, st)
    else
      var retry := st.retry - 1;
      if !io.available then (NoFilesystem, InitState(retry, false, st.path))
      else if !io.mountOk then (IoFailed, InitState(retry, true, st.path))
      else
        var dir := device + " Export";
        if !io.exportDirExists && !io.mkdirExportOk then (IoFailed, InitState(retry, true, dir))
        else if !io.infoOpenOk || (io.infoExists && !io.infoRewriteOk) then (IoFailed, InitState(retry, true, dir))
        else
          var idDir := dir + "/" + Decimal(ExportId(io));
          if !io.idDirOk then (IoFailed, InitState(retry, true, idDir))
          else (Ready, InitState(retry, true, idDir + "/"))
  }

  /**
   * A set-up that is already done succeeds and changes nothing; otherwise a
   * positive budget is spent by one, and a spent budget fails and changes
   * nothing.
   */
  lemma InitRetryRule(st: InitState, device: string, io: InitIo)
    ensures st.fsReady ==> InitSpec(st, device, io) == (Ready, st)
    ensures !st.fsReady && st.retry <= 0 ==> InitSpec(st, device, io) == (RetriesExhausted, st)
    ensures !st.fsReady && st.retry > 0 ==> InitSpec(st, device, io).1.retry == st.retry - 1
    ensures InitSpec(st, device, io).0 == Ready ==> InitSpec(st, device, io).1.fsReady
  {
  }

  /** A fresh successful set-up exports to `<device> Export/<id>/`. */
  lemma InitReadyPath(st: InitState, device: string, io: InitIo)
    requires !st.fsReady && InitSpec(st, device, io).0 == Ready
    ensures InitSpec(st, device, io).1.path == device + " Export/" + Decimal(ExportId(io)) + "/"
    ensures io.infoExists ==> ExportId(io) == NextId(io.infoStored)
    ensures !io.infoExists ==> ExportId(io) == 0
  {
  }

  /** The info file left by one export numbers the next export one higher. */
  lemma ExportIdsAdvance(io: InitIo, next: InitIo)
    requires next.infoExists && next.infoStored == InfoWritten(io)
    requires ExportId(io) < 0x7fff_ffff
    ensures ExportId(next) == ExportId(io) + 1
  {
    NextIdAfterDecimal(ExportId(io));
  }

  /** The outcomes a `commit` sees: the set-up's, then opening and writing the file. */
  datatype CommitIo = CommitIo(init: InitIo, openOk: bool, writeOk: bool)

  /** `commit`: the state afterwards and the file written, if any. */
  function CommitSpec(st: InitState, device: string, name: string, io: CommitIo): (r: (bool, InitState, Option<string>))
    ensures r.0 <==> r.2.Some?
    ensures r.0 ==> r.1.fsReady
    ensures st.retry - 1 <= r.1.retry <= st.retry
  {
    var (res, st1) := InitSpec(st, device, io.init);
    if res != Ready then (false, st1.(fsReady := false), None)
    else if !io.openOk || !io.writeOk then (false, st1, None)
    else (true, st1, Some(st1.path + name))
  }

  /** Whether a call reaches the filesystem driver. */
  predicate Probes(st: InitState)
  {
    !st.fsReady && st.retry > 0
  }

  /** How many of a run of commits reach the filesystem driver. */
  function ProbeCount(st: InitState, device: string, names: seq<string>, ios: seq<CommitIo>): nat
    requires |names| == |ios|
    decreases |ios|
  {
    if ios == [] then 0
    else
      var st1 := CommitSpec(st, device, names[0], ios[0]).1;
      (if Probes(st) then 1 else 0) + ProbeCount(st1, device, names[1..], ios[1..])
  }

  function Budget(st: InitState): nat
  {
    if st.retry > 0 then st.retry else 0
  }

  /** Whatever the outcomes, no more commits reach the driver than the retry budget allows. */
  lemma {:induction false} ProbesWithinBudget(st: InitState, device: string, names: seq<string>, ios: seq<CommitIo>)
    requires |names| == |ios|
    ensures ProbeCount(st, device, names, ios) <= Budget(st)
    decreases |ios|
  {
    if ios != [] {
      var st1 := CommitSpec(st, device, names[0], ios[0]).1;
      InitRetryRule(st, device, ios[0].init);
      assert Probes(st) ==> Budget(st1) == Budget(st) - 1;
      assert !Probes(st) ==> Budget(st1) <= Budget(st);
      ProbesWithinBudget(st1, device, names[1..], ios[1..]);
    }
  }

  /** A committed export goes to `<device> Export/<id>/<name>`, and later commits reuse the directory. */
  lemma CommitPath(st: InitState, device: string, name: string, io: CommitIo)
    requires !st.fsReady && CommitSpec(st, device, name, io).0
    ensures CommitSpec(st, device, name, io).2 == Some(device + " Export/" + Decimal(ExportId(io.init)) + "/" + name)
    ensures forall io2: CommitIo :: CommitSpec(CommitSpec(st, device, name, io).1, device, name, io2).1
                                 == CommitSpec(st, device, name, io).1
  {
    InitReadyPath(st, device, io.init);
  }

  // ---------------------------------------------------------------------------
  // The exporter
  // ---------------------------------------------------------------------------

  class Exporter {
    var retry: int
    var fsReady: bool
    var path: string
    var bytes: nat
    var size: nat
    var data: array?<bv8>

    ghost predicate Valid()
      reads this
    {
      && bytes <= size
      && (data == null ==> size == 0 && bytes == 0)
      && (data != null ==> data.Length == size)
    }

    function State(): InitState
      reads this
    {
      InitState(retry, fsReady, path)
    }

    constructor (retry: int)
      ensures Valid() && State() == InitState(retry, false, "")
      ensures data == null
    {
      this.retry := retry;
      fsReady := false;
      path := "";
      bytes, size := 0, 0;
      data := null;
    }

    /** `cache`, with the new buffer stored in the member. */
    method Cache(content: seq<bv8>, trigger: nat)
      requires Valid()
      modifies this, data
      ensures Valid() && data != null && State() == old(State())
      ensures size == NewCapacity(old(data) != null, old(size), |content|, trigger)
      ensures Reallocates(old(data) != null, old(size), |content|, trigger) ==> fresh(data)
      ensures !Reallocates(old(data) != null, old(size), |content|, trigger) ==> data == old(data)
      ensures bytes == |content| && data[..bytes] == content
    {
      if data == null || |content| > size || |content| + trigger < size {
        data := new bv8[|content| + trigger / 2];
        size := |content| + trigger / 2;
      }
      bytes := |content|;
      forall i | 0 <= i < |content| {
        data[i] := content[i];
      }
    }

    /** `init_filesystem`, step by step. */
    method InitFilesystem(device: string, io: InitIo) returns (res: InitResult)
      requires Valid()
      modifies this
      ensures Valid() && data == old(data) && bytes == old(bytes) && size == old(size)
      ensures (res, State()) == InitSpec(old(State()), device, io)
    {
      if fsReady {
        return Ready;
      }
      if retry > 0 {
        retry := retry - 1;
      } else if retry <= 0 {
        return RetriesExhausted;
      }
      fsReady := io.available;
      if !fsReady {
        return NoFilesystem;
      }
      if !io.mountOk {
        return IoFailed;
      }
      path := device;
      path := path + " Export";
      if !io.exportDirExists && !io.mkdirExportOk {
        return IoFailed;
      }
      var id: nat := 0;
      if !io.infoExists {
        if !io.infoOpenOk {
          return IoFailed;
        }
      } else {
        if !io.infoOpenOk {
          return IoFailed;
        }
        id := NextId(io.infoStored);
        if !io.infoRewriteOk {
          return IoFailed;
        }
      }
      path := path + "/";
      path := path + Decimal(id);
      if !io.idDirOk {
        return IoFailed;
      }
      path := path + "/";
      res := Ready;
    }

    /** `commit`: sets up the filesystem once, then writes the cached bytes to `path + name`. */
    method Commit(device: string, name: string, io: CommitIo) returns (ok: bool, file: Option<string>, written: seq<bv8>)
      requires Valid()
      modifies this
      ensures Valid() && data == old(data) && bytes == old(bytes) && size == old(size)
      ensures (ok, State(), file) == CommitSpec(old(State()), device, name, io)
      ensures ok ==> data != null ==> written == data[..bytes]
      ensures ok && data == null ==> written == []
    {
      var res := InitFilesystem(device, io.init);
      if res != Ready {
        fsReady := false;
        return false, None, [];
      }
      if !io.openOk || !io.writeOk {
        return false, None, [];
      }
      file := Some(path + name);
      written := if data == null then [] else data[..bytes];
      ok := true;
    }
  }
}
