/**
 Cutting a file into parts for the uploader: the number of parts is fixed by the size, and each part
 is whatever one read of a buffered reader returns.
 */
module FileParts {
  import opened Common

  /** The buffer of a bufio reader made without a size. */
  const BUFFER_SIZE: nat := 4096

  /** What the file's k-th read has ready is never nothing, short of the end of the file. */
  type Bytes = n: int | 0 < n witness 1

  function Min(a: nat, b: nat): nat { if a < b then a else b }

  /** Division rounded up, for a positive divisor. */
  function Ceiling(a: nat, b: nat): nat
    requires b > 0
  {
    a / b + if a % b > 0 then 1 else 0
  }

  lemma CeilingIs(a: nat, b: nat)
    requires b > 0
    ensures Ceiling(a, b) * b >= a && (a > 0 ==> Ceiling(a, b) > 0 && (Ceiling(a, b) - 1) * b < a)
    ensures a == 0 ==> Ceiling(a, b) == 0
  {
    var (q, r) := (a / b, a % b);
    assert a == q * b + r;
    assert (q + 1) * b == q * b + b && (q - 1) * b == q * b - b;
  }

  /** The least multiple at or above a decides. */
  lemma CeilingIff(a: nat, b: nat, n: nat)
    requires b > 0
    ensures Ceiling(a, b) <= n <==> a <= n * b
  {
    CeilingIs(a, b);
    if n < Ceiling(a, b) {
      TimesMonotone(n, Ceiling(a, b) - 1, b);
    } else {
      TimesMonotone(Ceiling(a, b), n, b);
    }
  }

  lemma CeilingLess(a: nat, b: nat)
    requires b > 0
    ensures a > 0 ==> Ceiling(a - Min(a, b), b) == Ceiling(a, b) - 1
  {
    if a > b {
      CeilingStep(a, b);
    }
  }

  lemma CeilingStep(a: nat, b: nat)
    requires 0 < b <= a
    ensures Ceiling(a - b, b) == Ceiling(a, b) - 1
  {
    var q := a / b;
    assert a == q * b + a % b;
    assert (q - 1) * b == q * b - b && q >= 1;
    QuotientIff(a - b, b, q - 1);
  }

  // ---------- The buffered reader ----------

  /** Bytes handed on so far, bytes of the file waiting in the buffer, and how often the file was read. */
  datatype Reader = Reader(at: nat, buffered: nat, asked: nat)

  /** How much the file is asked for: a slice as large as the buffer is filled directly. */
  function Request(chunk: nat): nat { if chunk >= BUFFER_SIZE then chunk else BUFFER_SIZE }

  function Filled(asked: nat, fromFile: nat -> Bytes, chunk: nat, left: nat): (n: nat)
    ensures n <= left && (left > 0 && chunk > 0 ==> n > 0)
  {
    Min(left, Min(fromFile(asked), Request(chunk)))
  }

  /** One read into a slice of the given size; an empty buffer is filled once and never more. */
  function AfterRead(r: Reader, fromFile: nat -> Bytes, chunk: nat, length: nat): (next: Reader)
    requires r.at + r.buffered <= length
    ensures next.at + next.buffered <= length && r.at <= next.at <= r.at + chunk
  {
    if r.buffered > 0 then
      Reader(r.at + Min(chunk, r.buffered), r.buffered - Min(chunk, r.buffered), r.asked)
    else
      var n := Filled(r.asked, fromFile, chunk, length - r.at);
      Reader(r.at + Min(chunk, n), n - Min(chunk, n), r.asked + 1)
  }

  /** The reader after n reads. */
  function After(n: nat, fromFile: nat -> Bytes, chunk: nat, length: nat): (r: Reader)
    ensures r.at + r.buffered <= length
  {
    if n == 0 then Reader(0, 0, 0) else AfterRead(After(n - 1, fromFile, chunk, length), fromFile, chunk, length)
  }

  lemma FilledDirectly(asked: nat, fromFile: nat -> Bytes, chunk: nat, left: nat)
    requires chunk >= BUFFER_SIZE
    ensures Filled(asked, fromFile, chunk, left) <= chunk
  {}

  class BufReader<T> {
    const file: seq<T>
    var offset: nat
    var buffer: seq<T>
    var asked: nat

    ghost predicate Valid() reads this {
      |buffer| <= offset <= |file| && buffer == file[offset - |buffer|..offset]
    }

    ghost function View(): Reader
      reads this
      requires Valid()
    {
      Reader(offset - |buffer|, |buffer|, asked)
    }

    constructor (file0: seq<T>)
      ensures Valid() && file == file0 && View() == Reader(0, 0, 0)
    {
      file, offset, buffer, asked := file0, 0, [], 0;
    }

    method Read(chunk: nat, fromFile: nat -> Bytes) returns (p: seq<T>)
      requires Valid()
      modifies this
      ensures Valid() && View() == AfterRead(old(View()), fromFile, chunk, |file|)
      ensures p == file[old(View()).at..View().at]
    {
      hide Filled, Request;
      if buffer == [] {
        var n := Filled(asked, fromFile, chunk, |file| - offset);
        asked := asked + 1;
        if chunk >= BUFFER_SIZE {
          FilledDirectly(asked - 1, fromFile, chunk, |file| - offset);
          offset := offset + n;
          return file[offset - n..offset];
        }
        offset, buffer := offset + n, file[offset..offset + n];
      }
      p := Take(Min(chunk, |buffer|));
    }

    /** Hands on the first n buffered bytes. */
    method Take(n: nat) returns (p: seq<T>)
      requires Valid() && n <= |buffer|
      modifies this`buffer
      ensures Valid() && View() == Reader(old(View()).at + n, old(View()).buffered - n, asked)
      ensures p == file[old(View()).at..View().at]
    {
      ghost var at := offset - |buffer|;
      p, buffer := buffer[..n], buffer[n..];
      assert p == file[at..at + n];
    }
  }

  function Joined<T>(parts: seq<seq<T>>): seq<T> {
    if parts == [] then [] else Joined(parts[..|parts| - 1]) + parts[|parts| - 1]
  }

  lemma {:induction false} NoFasterThanChunks(n: nat, fromFile: nat -> Bytes, chunk: nat, length: nat)
    ensures After(n, fromFile, chunk, length).at <= n * chunk
  {
    if n > 0 {
      NoFasterThanChunks(n - 1, fromFile, chunk, length);
      assert n * chunk == (n - 1) * chunk + chunk;
    }
  }

  /** One read per part: no part is empty, and joined they are the file as far as the reads got. */
  method ReadParts<T>(data: seq<T>, chunk: nat, fromFile: nat -> Bytes) returns (parts: seq<seq<T>>)
    requires chunk > 0
    ensures |parts| == Ceiling(|data|, chunk)
    ensures Joined(parts) == data[..After(|parts|, fromFile, chunk, |data|).at]
    ensures forall k | 0 <= k < |parts| :: 0 < |parts[k]| <= chunk
  {
    hide AfterRead, Ceiling;
    var r := new BufReader(data);
    parts := [];
    while |parts| < Ceiling(|data|, chunk)
      invariant |parts| <= Ceiling(|data|, chunk) && fresh(r) && r.Valid() && r.file == data
      invariant r.View() == After(|parts|, fromFile, chunk, |data|)
      invariant Joined(parts) == data[..r.View().at]
      invariant forall k | 0 <= k < |parts| :: 0 < |parts[k]| <= chunk
    {
      ghost var before := r.View();
      NoFasterThanChunks(|parts|, fromFile, chunk, |data|);
      CeilingIff(|data|, chunk, |parts|);
      ReadAdvances(before, fromFile, chunk, |data|);
      var part := r.Read(chunk, fromFile);
      assert data[..r.View().at] == data[..before.at] + part;
      assert (parts + [part])[..|parts|] == parts;
      parts := parts + [part];
    }
  }

  lemma ReadAdvances(r: Reader, fromFile: nat -> Bytes, chunk: nat, length: nat)
    requires r.at + r.buffered <= length && chunk > 0
    ensures r.at < length ==> r.at < AfterRead(r, fromFile, chunk, length).at
  {}

  // ---------- When the parts are the whole file ----------

  /** Reads it takes to get through the last `left` bytes of the file, starting with an empty buffer. */
  function ReadsFor(left: nat, asked: nat, fromFile: nat -> Bytes, chunk: nat): nat
    requires chunk > 0
    decreases left
  {
    if left == 0 then 0
    else
      var n := Filled(asked, fromFile, chunk, left);
      Ceiling(n, chunk) + ReadsFor(left - n, asked + 1, fromFile, chunk)
  }

  function ToGo(r: Reader, fromFile: nat -> Bytes, chunk: nat, length: nat): nat
    requires chunk > 0 && r.at + r.buffered <= length
  {
    Ceiling(r.buffered, chunk) + ReadsFor(length - r.at - r.buffered, r.asked, fromFile, chunk)
  }

  lemma ReadUsesOne(r: Reader, fromFile: nat -> Bytes, chunk: nat, length: nat)
    requires chunk > 0 && r.at + r.buffered <= length
    ensures ToGo(r, fromFile, chunk, length) == 0 <==> r.at == length
    ensures var next := AfterRead(r, fromFile, chunk, length);
      if r.at == length then next.at == length
      else ToGo(next, fromFile, chunk, length) == ToGo(r, fromFile, chunk, length) - 1
  {
    hide Ceiling;
    CeilingIs(r.buffered, chunk);
    CeilingIs(0, chunk);
    var n := Filled(r.asked, fromFile, chunk, length - r.at);
    CeilingIs(n, chunk);
    CeilingLess(if r.buffered > 0 then r.buffered else n, chunk);
  }

  /** n reads get to the end of the file exactly when that many are enough, whatever the file's reads return. */
  lemma {:induction false} EndIsReachedIff(n: nat, fromFile: nat -> Bytes, chunk: nat, length: nat)
    requires chunk > 0
    ensures After(n, fromFile, chunk, length).at == length <==> ReadsFor(length, 0, fromFile, chunk) <= n
    ensures ReadsFor(length, 0, fromFile, chunk) > n ==>
      ToGo(After(n, fromFile, chunk, length), fromFile, chunk, length) == ReadsFor(length, 0, fromFile, chunk) - n
  {
    hide ReadsFor, AfterRead, ToGo;
    if n == 0 {
      AtTheStart(fromFile, chunk, length);
      ReadUsesOne(After(0, fromFile, chunk, length), fromFile, chunk, length);
    } else {
      EndIsReachedIff(n - 1, fromFile, chunk, length);
      ReadUsesOne(After(n - 1, fromFile, chunk, length), fromFile, chunk, length);
      ReadUsesOne(After(n, fromFile, chunk, length), fromFile, chunk, length);
    }
  }

  lemma AtTheStart(fromFile: nat -> Bytes, chunk: nat, length: nat)
    requires chunk > 0
    ensures ToGo(Reader(0, 0, 0), fromFile, chunk, length) == ReadsFor(length, 0, fromFile, chunk)
  {}

  /** The file hands over as much as it is asked for, as far as it goes. */
  ghost predicate FullReads(fromFile: nat -> Bytes, chunk: nat) {
    forall k :: fromFile(k) >= Request(chunk)
  }

  /** Reads for the whole file: each full buffer, and the last one, is used up on its own. */
  function Needed(length: nat, chunk: nat): nat
    requires chunk > 0
  {
    if chunk >= BUFFER_SIZE then Ceiling(length, chunk)
    else length / BUFFER_SIZE * Ceiling(BUFFER_SIZE, chunk) + Ceiling(length % BUFFER_SIZE, chunk)
  }

  lemma NeededStep(length: nat, chunk: nat)
    requires chunk > 0 && length >= Request(chunk)
    ensures Needed(length, chunk) == Ceiling(Request(chunk), chunk) + Needed(length - Request(chunk), chunk)
  {
    if chunk >= BUFFER_SIZE {
      CeilingStep(length, chunk);
    } else {
      var q := length / BUFFER_SIZE;
      assert (length - BUFFER_SIZE) / BUFFER_SIZE == q - 1;
      hide Ceiling;
      assert q * Ceiling(BUFFER_SIZE, chunk) == (q - 1) * Ceiling(BUFFER_SIZE, chunk) + Ceiling(BUFFER_SIZE, chunk);
    }
  }

  lemma {:induction false} FullReadsNeed(left: nat, asked: nat, fromFile: nat -> Bytes, chunk: nat)
    requires chunk > 0 && FullReads(fromFile, chunk)
    ensures ReadsFor(left, asked, fromFile, chunk) == Needed(left, chunk)
    decreases left
  {
    hide Ceiling;
    CeilingIs(0, chunk);
    if left >= Request(chunk) {
      NeededStep(left, chunk);
      FullReadsNeed(left - Request(chunk), asked + 1, fromFile, chunk);
    } else if left > 0 {
      FullReadsNeed(0, asked + 1, fromFile, chunk);
    }
  }

  predicate KeepsAll(chunk: nat, length: nat)
    requires chunk > 0
  {
    chunk >= BUFFER_SIZE
    || length / BUFFER_SIZE * Ceiling(BUFFER_SIZE, chunk) + Ceiling(length % BUFFER_SIZE, chunk) <= Ceiling(length, chunk)
  }

  /** The exact condition, on part size and file size alone, under which the parts are the whole file. */
  lemma PartsAreWholeIff(chunk: nat, length: nat, fromFile: nat -> Bytes)
    requires chunk > 0 && FullReads(fromFile, chunk)
    ensures After(Ceiling(length, chunk), fromFile, chunk, length).at == length <==> KeepsAll(chunk, length)
  {
    hide Ceiling, ReadsFor;
    EndIsReachedIff(Ceiling(length, chunk), fromFile, chunk, length);
    FullReadsNeed(length, 0, fromFile, chunk);
  }

  /** Five parts of 1000 bytes are read from 5000 bytes, and 904 bytes never are. */
  lemma SmallPartsLoseTheEnd(fromFile: nat -> Bytes)
    requires FullReads(fromFile, 1000)
    ensures Ceiling(5000, 1000) == 5 && After(5, fromFile, 1000, 5000).at == 4096 && !KeepsAll(1000, 5000)
    ensures Ceiling(5500, 1000) == 6 && After(6, fromFile, 1000, 5500).at == 5096 && !KeepsAll(1000, 5500)
  {
    assert After(1, fromFile, 1000, 5000) == Reader(1000, 3096, 1);
    assert After(3, fromFile, 1000, 5000) == Reader(3000, 1096, 1);
    assert After(1, fromFile, 1000, 5500) == Reader(1000, 3096, 1);
    assert After(3, fromFile, 1000, 5500) == Reader(3000, 1096, 1);
    assert After(5, fromFile, 1000, 5500) == Reader(4096, 0, 1);
  }

  /** The part sizes that are safe for every file: at least the buffer's, or a divisor of it. */
  lemma SafeChunksIff(chunk: nat)
    requires chunk > 0
    ensures (forall length: nat :: KeepsAll(chunk, length)) <==> chunk >= BUFFER_SIZE || BUFFER_SIZE % chunk == 0
  {
    if chunk < BUFFER_SIZE {
      if BUFFER_SIZE % chunk == 0 {
        forall length: nat ensures KeepsAll(chunk, length) {
          DivisorKeepsAll(chunk, length);
        }
      } else {
        OthersLose(chunk);
      }
    }
  }

  lemma DivisorKeepsAll(chunk: nat, length: nat)
    requires 0 < chunk < BUFFER_SIZE && BUFFER_SIZE % chunk == 0
    ensures KeepsAll(chunk, length)
  {
    var q, r, k := length / BUFFER_SIZE, length % BUFFER_SIZE, BUFFER_SIZE / chunk;
    assert BUFFER_SIZE == k * chunk && Ceiling(BUFFER_SIZE, chunk) == k;
    assert length == q * (k * chunk) + r == q * k * chunk + r;
    CeilingAdds(q * k, r, chunk);
  }

  lemma {:induction false} CeilingAdds(n: nat, r: nat, b: nat)
    requires b > 0
    ensures Ceiling(n * b + r, b) == n + Ceiling(r, b)
    decreases n
  {
    if n > 0 {
      assert n * b + r == (n - 1) * b + r + b;
      CeilingStep(n * b + r, b);
      CeilingAdds(n - 1, r, b);
    } else {
      assert n * b == 0;
    }
  }

  /** As many full buffers as a part has bytes would take more parts than there are. */
  lemma OthersLose(chunk: nat)
    requires 0 < chunk < BUFFER_SIZE && BUFFER_SIZE % chunk != 0
    ensures !KeepsAll(chunk, chunk * BUFFER_SIZE)
  {
    var length, c := chunk * BUFFER_SIZE, Ceiling(BUFFER_SIZE, chunk);
    assert length / BUFFER_SIZE == chunk && length % BUFFER_SIZE == 0;
    assert length == BUFFER_SIZE * chunk + 0;
    CeilingAdds(BUFFER_SIZE, 0, chunk);
    assert c == BUFFER_SIZE / chunk + 1;
    assert chunk * c == chunk * (BUFFER_SIZE / chunk) + chunk;
  }

  /** Bytes the first n reads of the file have ready for slices of this size. */
  function Offered(n: nat, fromFile: nat -> Bytes, chunk: nat): nat {
    if n == 0 then 0 else Offered(n - 1, fromFile, chunk) + Min(fromFile(n - 1), chunk)
  }

  /** For part sizes from the buffer's on, even short reads of the file lose nothing as long as enough is offered. */
  lemma {:induction false} LargePartsReach(n: nat, fromFile: nat -> Bytes, chunk: nat, length: nat)
    requires chunk >= BUFFER_SIZE
    ensures After(n, fromFile, chunk, length) == Reader(Min(Offered(n, fromFile, chunk), length), 0, n)
    ensures After(n, fromFile, chunk, length).at == length <==> Offered(n, fromFile, chunk) >= length
  {
    if n > 0 {
      LargePartsReach(n - 1, fromFile, chunk, length);
    }
  }
}
