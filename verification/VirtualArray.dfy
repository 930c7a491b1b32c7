/** The virtual arrays of the memory manager: arrays of rows of which a window is in memory and the rest in
    a backing store.  Accessed strip by strip, such an array behaves like one that is all in memory. */
module VirtualArray {
  import opened Bits

  function Min(a: int, b: int): int { if a < b then a else b }

  // ---------------------------------------------------------------- chunks of memory

  /** Where a row is: `index` rows into allocation number `chunk`. */
  datatype RowPtr = RowPtr(chunk: nat, index: nat)

  /** `n` rows from row `i` on lie one behind the other. */
  predicate Contiguous(ptrs: seq<RowPtr>, i: nat, n: nat)
  {
    i + n <= |ptrs| && forall k: nat | i <= k < i + n :: ptrs[k] == RowPtr(ptrs[i].chunk, ptrs[i].index + (k - i))
  }

  /** Rows lie in chunks of `size`. */
  predicate Chunked(ptrs: seq<RowPtr>, size: nat)
  {
    size > 0 && forall r: nat | r < |ptrs| :: ptrs[r] == RowPtr(r / size, r % size)
  }

  /** A whole chunk, or the part of it that is there, is contiguous. */
  lemma ChunkContiguous(ptrs: seq<RowPtr>, size: nat, i: nat, n: nat)
    requires Chunked(ptrs, size) && i % size == 0 && n <= size && i + n <= |ptrs|
    ensures Contiguous(ptrs, i, n)
  {
    forall k: nat | i <= k < i + n
      ensures ptrs[k] == RowPtr(ptrs[i].chunk, ptrs[i].index + (k - i))
    {
      DivUnique(k, size, i / size, k - i);
    }
  }

  const MAX_ALLOC_CHUNK: nat := 1000000000

  /** Every row is inside its chunk. */
  predicate InChunks(ptrs: seq<RowPtr>, chunkRows: seq<nat>)
  {
    forall r | 0 <= r < |ptrs| :: ptrs[r].chunk < |chunkRows| && ptrs[r].index < chunkRows[ptrs[r].chunk]
  }

  /** The rows of one more chunk. */
  method FillChunk(ptrs0: seq<RowPtr>, rows: nat, size: nat, workspace: nat, chunkRows: seq<nat>)
    returns (ptrs: seq<RowPtr>)
    requires Chunked(ptrs0, size) && |ptrs0| % size == 0 && |ptrs0| / size == workspace && rows <= size
    requires workspace < |chunkRows| && chunkRows[workspace] == rows && InChunks(ptrs0, chunkRows)
    ensures |ptrs| == |ptrs0| + rows && Chunked(ptrs, size) && InChunks(ptrs, chunkRows)
    ensures rows == size ==> |ptrs| % size == 0 && |ptrs| / size == workspace + 1
  {
    ptrs := ptrs0;
    var i: nat := 0;
    while i < rows
      invariant i <= rows && |ptrs| == |ptrs0| + i && Chunked(ptrs, size) && InChunks(ptrs, chunkRows)
    {
      DivUnique(|ptrs|, size, workspace, i);
      ptrs := ptrs + [RowPtr(workspace, i)];
      i := i + 1;
    }
    if rows == size {
      DivUnique(|ptrs|, size, workspace + 1, 0);
    }
  }

  /** alloc_sarray and alloc_barray: as many rows in one piece as fit.  Fails if not even one does. */
  method AllocRows(rowBytes: nat, numRows: nat, headerBytes: nat)
    returns (ok: bool, ptrs: seq<RowPtr>, rowsPerChunk: nat, chunkRows: seq<nat>)
    requires rowBytes > 0 && headerBytes <= 1000000000 && numRows > 0
    ensures ok <==> rowBytes <= 1000000000 - headerBytes
    ensures ok ==>
        |ptrs| == numRows && 0 < rowsPerChunk <= numRows && Chunked(ptrs, rowsPerChunk) && InChunks(ptrs, chunkRows)
    ensures ok ==> forall c | 0 <= c < |chunkRows| :: chunkRows[c] * rowBytes <= 1000000000 - headerBytes
    ensures ok && rowsPerChunk < numRows ==> (rowsPerChunk + 1) * rowBytes > 1000000000 - headerBytes
  {
    hide Chunked, InChunks;
    NoRows(numRows);
    ptrs, chunkRows := [], [];
    var room := MAX_ALLOC_CHUNK - headerBytes;
    var ltemp := room / rowBytes;
    Quotient(room, rowBytes);
    if ltemp == 0 {
      return false, [], 0, [];
    }
    rowsPerChunk := if ltemp < numRows then ltemp else numRows;
    NoRows(rowsPerChunk);
    while |ptrs| < numRows
      invariant |ptrs| <= numRows && Chunked(ptrs, rowsPerChunk) && InChunks(ptrs, chunkRows)
      invariant |ptrs| < numRows ==> |ptrs| % rowsPerChunk == 0 && |ptrs| / rowsPerChunk == |chunkRows|
      invariant forall c | 0 <= c < |chunkRows| :: chunkRows[c] <= ltemp
    {
      var rows := Min(rowsPerChunk, numRows - |ptrs|);
      MoreChunks(ptrs, chunkRows, rows);
      chunkRows := chunkRows + [rows];
      ptrs := FillChunk(ptrs, rows, rowsPerChunk, |chunkRows| - 1, chunkRows);
    }
    forall c | 0 <= c < |chunkRows|
      ensures chunkRows[c] * rowBytes <= room
    {
      ScaleMono(chunkRows[c], ltemp, rowBytes);
    }
    ok := true;
  }

  lemma NoRows(size: nat)
    requires size > 0
    ensures Chunked([], size) && InChunks([], []) && 0 % size == 0 && 0 / size == 0
  {
  }

  lemma MoreChunks(ptrs: seq<RowPtr>, chunkRows: seq<nat>, rows: nat)
    requires InChunks(ptrs, chunkRows)
    ensures InChunks(ptrs, chunkRows + [rows])
  {
  }

  lemma Quotient(a: nat, b: nat)
    requires b > 0
    ensures a / b * b <= a && (a / b == 0 <==> a < b)
  {
  }

  lemma ScaleMono(a: nat, b: nat, c: nat)
    requires a <= b
    ensures a * c <= b * c
  {
    if a < b {
      MulAtLeast(b - a, if c == 0 then 1 else c);
      assert (b - a) * c == b * c - a * c;
    }
  }

  // ---------------------------------------------------------------- the array

  datatype Access = Ok(base: nat) | BadAccess

  /** A virtual array.  `model` is what a plain array of all rows would hold; rows from `firstUndefRow` on have
      never been written, and read as zero if the array is pre-zeroed. */
  class VirtArray<T(==)> {
    const rowsInArray: nat
    const maxAccess: nat
    const rowsInMem: nat
    const rowsPerChunk: nat
    const preZero: bool
    const bsOpen: bool
    const zero: T
    const memBuffer: array<T>
    const ptrs: seq<RowPtr>
    var store: seq<T>
    var curStartRow: nat
    var firstUndefRow: nat
    var dirty: bool
    ghost var model: seq<T>

    /** An array whose memory has just been allocated. */
    constructor (rowsInArray: nat, maxAccess: nat, rowsInMem: nat, rowsPerChunk: nat, ptrs: seq<RowPtr>,
          preZero: bool, bsOpen: bool, zero: T, file: seq<T>)
      requires maxAccess > 0 && rowsInMem <= rowsInArray && |ptrs| == rowsInMem && |file| == rowsInArray
      requires rowsInMem > 0 ==> Chunked(ptrs, rowsPerChunk)
      requires if bsOpen then maxAccess <= rowsInMem else rowsInMem == rowsInArray
      ensures Valid() && firstUndefRow == 0 && this.rowsInArray == rowsInArray && this.maxAccess == maxAccess
          && this.preZero == preZero && this.zero == zero
      ensures fresh(memBuffer)
    {
      this.rowsInArray, this.maxAccess, this.rowsInMem, this.rowsPerChunk := rowsInArray, maxAccess, rowsInMem,
          rowsPerChunk;
      this.ptrs, this.preZero, this.bsOpen, this.zero := ptrs, preZero, bsOpen, zero;
      memBuffer := new T[rowsInMem](_ => zero);
      store, curStartRow, firstUndefRow, dirty := file, 0, 0, false;
      model := seq(rowsInArray, _ => zero);
    }

    /** The sizes realize_virt_arrays sets up. */
    ghost predicate Sized()
    {
      && maxAccess > 0 && memBuffer.Length == rowsInMem && rowsInMem <= rowsInArray && |ptrs| == rowsInMem
      && (rowsInMem > 0 ==> rowsPerChunk > 0 && Chunked(ptrs, rowsPerChunk))
      && (if bsOpen then maxAccess <= rowsInMem else rowsInMem == rowsInArray)
    }

    /** Each row that has been written is in the window, or else in the backing store. */
    ghost predicate Valid()
      reads this, memBuffer
    {
      && Sized() && |store| == |model| == rowsInArray && firstUndefRow <= rowsInArray && curStartRow <= rowsInArray
      && (!bsOpen ==> curStartRow == 0)
      && (forall i | 0 <= i < rowsInArray :: Held(i))
      && (preZero ==> forall i | firstUndefRow <= i < rowsInArray :: model[i] == zero)
    }

    ghost predicate Held(i: nat)
      requires memBuffer.Length == rowsInMem && |store| == |model| == rowsInArray && i < rowsInArray
      reads this, memBuffer
    {
      i < firstUndefRow ==>
        && (curStartRow <= i < curStartRow + rowsInMem ==> memBuffer[i - curStartRow] == model[i])
        && ((dirty && curStartRow <= i < curStartRow + rowsInMem) || store[i] == model[i])
    }

    /** How many rows do_sarray_io transfers: no more than are defined, and no more than there are. */
    function Transfer(): (n: nat)
      reads this`firstUndefRow, this`curStartRow
    {
      var n := Min(rowsInMem, Min(firstUndefRow - curStartRow, rowsInArray - curStartRow));
      if n < 0 then 0 else n
    }

    /** The size of the piece at row `i` of the buffer. */
    function Piece(i: nat): int
      reads this`firstUndefRow, this`curStartRow
    {
      Min(Min(Min(rowsPerChunk, rowsInMem - i), firstUndefRow - (curStartRow + i)), rowsInArray - (curStartRow + i))
    }

    lemma PieceFits(i: nat)
      requires Sized() && i < rowsInMem && AtChunk(i)
      ensures if Piece(i) <= 0 then Transfer() <= i
        else i < Transfer() && i + Piece(i) == Min(i + rowsPerChunk, Transfer()) && Contiguous(ptrs, i, Piece(i))
      ensures rowsPerChunk > 0 && AtChunk(i + rowsPerChunk)
    {
      if Piece(i) > 0 {
        ChunkContiguous(ptrs, rowsPerChunk, i, Piece(i));
      }
      NextChunk(i, rowsPerChunk);
    }

    /** Row `i` of the buffer starts a chunk. */
    ghost predicate AtChunk(i: nat) { rowsInMem > 0 ==> rowsPerChunk > 0 && i % rowsPerChunk == 0 }

    lemma TransferBounds()
      requires Sized() && |store| == rowsInArray
      ensures Transfer() <= rowsInMem == memBuffer.Length == |ptrs|
          && (Transfer() > 0 ==> curStartRow + Transfer() <= rowsInArray) && AtChunk(0)
    {
    }

    /** One contiguous piece out ... */
    method WritePiece(offset: nat, i: nat, rows: nat)
      requires Contiguous(ptrs, i, rows) && memBuffer.Length == |ptrs| && offset + rows <= |store|
      modifies this`store
      ensures |store| == |old(store)|
      ensures forall j | 0 <= j < |store| ::
          store[j] == if offset <= j < offset + rows then memBuffer[i + (j - offset)] else old(store[j])
    {
      store := store[..offset] + memBuffer[i..i + rows] + store[offset + rows..];
    }

    /** ... and in. */
    method ReadPiece(offset: nat, i: nat, rows: nat)
      requires Contiguous(ptrs, i, rows) && memBuffer.Length == |ptrs| && offset + rows <= |store|
      modifies memBuffer
      ensures forall k | 0 <= k < memBuffer.Length ::
          memBuffer[k] == if i <= k < i + rows then store[offset + (k - i)] else old(memBuffer[k])
    {
      forall k | i <= k < i + rows {
        memBuffer[k] := store[offset + (k - i)];
      }
    }

    /** do_sarray_io and do_barray_io, writing ... */
    method WriteRows()
      requires Sized() && |store| == rowsInArray
      modifies this`store
      ensures |store| == rowsInArray
      ensures forall j | 0 <= j < rowsInArray ::
        store[j] == if curStartRow <= j < curStartRow + Transfer() then memBuffer[j - curStartRow] else old(store[j])
    {
      hide Contiguous, Sized, Transfer, Piece, AtChunk;
      TransferBounds();
      var offset := curStartRow;
      var i: nat := 0;
      while i < rowsInMem
        invariant |store| == rowsInArray && AtChunk(i) && (i < Transfer() ==> offset == curStartRow + i)
        invariant forall j | 0 <= j < rowsInArray ::
          store[j] == if curStartRow <= j < curStartRow + Min(i, Transfer()) then memBuffer[j - curStartRow]
              else old(store[j])
      {
        PieceFits(i);
        var rows := Piece(i);
        if rows <= 0 {
          break;
        }
        WritePiece(offset, i, rows);
        offset := offset + rows;
        i := i + rowsPerChunk;
      }
    }

    /** ... and reading. */
    method ReadRows()
      requires Sized() && |store| == rowsInArray
      modifies memBuffer
      ensures forall k | 0 <= k < rowsInMem ::
        memBuffer[k] == if k < Transfer() then store[curStartRow + k] else old(memBuffer[k])
    {
      hide Contiguous, Sized, Transfer, Piece, AtChunk;
      TransferBounds();
      var offset := curStartRow;
      var i: nat := 0;
      while i < rowsInMem
        invariant AtChunk(i) && (i < Transfer() ==> offset == curStartRow + i)
        invariant forall k | 0 <= k < rowsInMem ::
          memBuffer[k] == if k < Min(i, Transfer()) then store[curStartRow + k] else old(memBuffer[k])
      {
        PieceFits(i);
        var rows := Piece(i);
        if rows <= 0 {
          break;
        }
        ReadPiece(offset, i, rows);
        offset := offset + rows;
        i := i + rowsPerChunk;
      }
    }

    /** Write the window back if it has been changed. */
    method Flush()
      requires Valid()
      modifies this`store, this`dirty
      ensures Valid() && !dirty
    {
      if dirty {
        assert forall i | 0 <= i < rowsInArray :: Held(i);
        WriteRows();
        dirty := false;
        forall i | 0 <= i < rowsInArray
          ensures Held(i)
        {
          assert old(Held(i));
        }
      }
    }

    /** Load the window that starts at `start`. */
    method Load(start: nat)
      requires Valid() && !dirty && bsOpen && start <= rowsInArray
      modifies this`curStartRow, memBuffer
      ensures Valid() && curStartRow == start
    {
      curStartRow := start;
      ReadRows();
      forall i | 0 <= i < rowsInArray
        ensures Held(i)
      {
        assert old(Held(i));
      }
    }

    /** Make the window include the rows from `start` up to `end`. */
    method MoveWindow(start: nat, end: nat)
      requires Valid() && start <= end <= rowsInArray && end - start <= maxAccess
      modifies this`store, this`curStartRow, this`dirty, memBuffer
      ensures Valid() && curStartRow <= start && end <= curStartRow + rowsInMem
      ensures curStartRow == Window(old(curStartRow), start, end)
    {
      hide Held, Chunked;
      if start < curStartRow || end > curStartRow + rowsInMem {
        assert bsOpen;
        Flush();
        if start > curStartRow {
          Load(start);
        } else {
          var ltemp := end - rowsInMem;
          if ltemp < 0 {
            ltemp := 0;
          }
          Load(ltemp);
        }
      }
    }

    /** Where the window is for an access: where it was, if that will do; else from the strip on, if that is further
        down, or up to the strip, as far as there are rows above it. */
    function Window(before: nat, start: nat, end: nat): nat
    {
      if before <= start && end <= before + rowsInMem then before
      else if start > before then start
      else if end > rowsInMem then end - rowsInMem else 0
    }

    /** Rows `start` up to `end` are in memory as in the plain array. */
    ghost predicate Shown(start: nat, end: nat)
      reads this`curStartRow, this`model, memBuffer
    {
      && memBuffer.Length == rowsInMem && curStartRow <= start <= end <= curStartRow + rowsInMem && end <= |model|
      && forall i | start <= i < end :: memBuffer[i - curStartRow] == model[i]
    }

    /** Zero rows `lo` up to `hi` of the buffer. */
    method ZeroRows(lo: nat, hi: nat)
      requires lo <= hi <= memBuffer.Length
      modifies memBuffer
      ensures forall k | 0 <= k < memBuffer.Length :: memBuffer[k] == if lo <= k < hi then zero else old(memBuffer[k])
    {
      var k := lo;
      while k < hi
        invariant lo <= k <= hi
        invariant forall j | 0 <= j < memBuffer.Length ::
            memBuffer[j] == if lo <= j < k then zero else old(memBuffer[j])
      {
        memBuffer[k] := zero;
        k := k + 1;
      }
    }

    /** access_virt_sarray and access_virt_barray: where in the buffer the strip is.  Errors are accesses outside the
        array, too high, leaving a gap of undefined rows behind what is written, or reading undefined rows.  Newly
        defined rows are zero, or, without pre-zeroing, whatever the buffer holds. */
    method AccessRows(start: nat, num: nat, writable: bool) returns (r: Access)
      requires Valid()
      modifies this, memBuffer
      ensures Valid()
      ensures r == BadAccess <==>
        || start + num > rowsInArray || num > maxAccess
        || (old(firstUndefRow) < start + num && if writable then old(firstUndefRow) < start else !preZero)
      ensures r.Ok? ==> curStartRow == Window(old(curStartRow), start, start + num)
      ensures r.Ok? ==>
          r.base == start - curStartRow && Shown(start, start + num)
              && (writable ==> dirty && start + num <= firstUndefRow)
      ensures firstUndefRow == if r.Ok? && writable && old(firstUndefRow) < start + num then start + num
          else old(firstUndefRow)
      ensures preZero || firstUndefRow == old(firstUndefRow) ==> model == old(model)
      ensures forall i | 0 <= i < rowsInArray && !(old(firstUndefRow) <= i < firstUndefRow) :: model[i] == old(model[i])
    {
      var end := start + num;
      if end > rowsInArray || num > maxAccess {
        return BadAccess;
      }
      MoveWindow(start, end);
      r := Ok(start - curStartRow);
      if firstUndefRow < end {
        var undefRow := start;
        if firstUndefRow < start {
          if writable {
            return BadAccess;
          }
        } else {
          undefRow := firstUndefRow;
        }
        var ok := Define(undefRow, start, end, writable);
        if !ok {
          return BadAccess;
        }
      } else {
        forall i | start <= i < end
          ensures memBuffer[i - curStartRow] == model[i]
        {
          assert Held(i);
        }
        if writable {
          MarkDirty();
        }
      }
    }

    method MarkDirty()
      requires Valid()
      modifies this`dirty
      ensures Valid() && dirty
    {
      dirty := true;
      forall i | 0 <= i < rowsInArray
        ensures Held(i)
      {
        assert old(Held(i));
      }
    }

    lemma SizedParts()
      requires Sized()
      ensures memBuffer.Length == rowsInMem <= rowsInArray
    {
      hide Chunked;
    }

    /** The part of an access that concerns undefined rows, which begin at `undefRow`. */
    method Define(undefRow: nat, start: nat, end: nat, writable: bool) returns (ok: bool)
      requires Valid() && curStartRow <= start <= undefRow <= end <= curStartRow + rowsInMem && end <= rowsInArray
      requires firstUndefRow <= undefRow && (undefRow == firstUndefRow || (undefRow == start && !writable))
      modifies this`firstUndefRow, this`dirty, this`model, memBuffer
      ensures Valid() && ok == (preZero || writable)
      ensures firstUndefRow == (if writable then end else old(firstUndefRow)) && (writable ==> dirty)
      ensures ok ==> Shown(start, end)
      ensures preZero || !writable ==> model == old(model)
      ensures forall i | 0 <= i < rowsInArray && !(undefRow <= i < end && writable) :: model[i] == old(model[i])
    {
      hide Sized, Chunked, Window;
      SizedParts();
      forall i | start <= i < undefRow
        ensures memBuffer[i - curStartRow] == model[i]
      {
        assert Held(i);
      }
      if writable {
        firstUndefRow := end;
      }
      if preZero {
        ZeroRows(undefRow - curStartRow, end - curStartRow);
      } else if !writable {
        return false;
      } else {
        model := model[..undefRow] + memBuffer[undefRow - curStartRow..end - curStartRow] + model[end..];
      }
      if writable {
        dirty := true;
      }
      ok := true;
      forall i | 0 <= i < rowsInArray
        ensures Held(i)
      {
        assert old(Held(i));
        if undefRow <= i < end && writable {
          assert memBuffer[i - curStartRow] == model[i];
        }
      }
    }

    /** The caller changes a row of a strip it has asked to write. */
    method PutRow(k: nat, row: T)
      requires Valid() && dirty && k < rowsInMem && curStartRow + k < firstUndefRow
      modifies memBuffer, this`model
      ensures Valid() && model == old(model)[curStartRow + k := row]
    {
      memBuffer[k] := row;
      model := model[curStartRow + k := row];
      forall i | 0 <= i < rowsInArray
        ensures Held(i)
      {
        assert old(Held(i));
      }
    }
  }

  lemma NextChunk(i: nat, size: nat)
    requires size > 0 && i % size == 0
    ensures (i + size) % size == 0
  {
    DivUnique(i + size, size, i / size + 1, 0);
  }

  // ---------------------------------------------------------------- against a plain array

  /** What callers do: read a strip, or change row `k` of a strip. */
  datatype Op<T> = Read(start: nat, num: nat) | Write(start: nat, num: nat, k: nat, row: T)

  datatype Answer<T> = Rows(rows: seq<T>) | Done | Error

  /** All rows in memory, and how far they have been written; rows that have not may only be read if the array is
      pre-zeroed. */
  datatype Plain<T> = Plain(rows: seq<T>, first: nat, maxAccess: nat, preZero: bool) {
    predicate Bad(op: Op<T>)
    {
      || op.start + op.num > |rows| || op.num > maxAccess
      || (first < op.start + op.num && if op.Write? then first < op.start else !preZero)
    }

    function After(op: Op<T>): Plain<T>
      requires !Bad(op) && (op.Write? ==> op.k < op.num)
    {
      if op.Read? then this
      else
        this.(rows := rows[op.start + op.k := op.row],
              first := if first < op.start + op.num then op.start + op.num else first)
    }

    function Reply(op: Op<T>): Answer<T>
      requires !Bad(op)
    {
      if op.Read? then Rows(rows[op.start..op.start + op.num]) else Done
    }
  }

  predicate OpsOk<T>(ops: seq<Op<T>>) { forall i | 0 <= i < |ops| && ops[i].Write? :: ops[i].k < ops[i].num }

  /** What a plain array answers, up to the first error. */
  function Answers<T>(p: Plain<T>, ops: seq<Op<T>>): seq<Answer<T>>
    requires OpsOk(ops)
    decreases |ops|
  {
    if ops == [] then []
    else if p.Bad(ops[0]) then [Error]
    else [p.Reply(ops[0])] + Answers(p.After(ops[0]), ops[1..])
  }

  datatype Maybe<T> = Nothing | Just(value: T)

  /** What the last write to row `r` has stored. */
  function LastWritten<T>(ops: seq<Op<T>>, r: nat): Maybe<T>
  {
    if ops == [] then Nothing
    else
      var op := ops[|ops| - 1];
      if op.Write? && op.start + op.k == r then Just(op.row) else LastWritten(ops[..|ops| - 1], r)
  }

  lemma {:induction false} LastOfRest<T>(ops: seq<Op<T>>, r: nat)
    requires ops != []
    ensures var op, later := ops[0], LastWritten(ops[1..], r);
      LastWritten(ops, r)
      == if later.Just? then later else if op.Write? && op.start + op.k == r then Just(op.row) else Nothing
    decreases |ops|
  {
    var n := |ops| - 1;
    if n > 0 {
      LastOfRest(ops[..n], r);
      assert ops[..n][1..] == ops[1..][..n - 1];
    }
  }

  /** A strip that is read, before anything has been refused, has in each row what was last written there, or what was
      there at the start. */
  lemma {:induction false} ReadLaw<T>(p: Plain<T>, ops: seq<Op<T>>, i: nat, j: nat)
    requires OpsOk(ops) && i < |ops| && i < |Answers(p, ops)| && ops[i].Read? && j < ops[i].num
    requires !Answers(p, ops)[i].Error?
    ensures Answers(p, ops)[i].Rows? && |Answers(p, ops)[i].rows| == ops[i].num && ops[i].start + j < |p.rows|
    ensures var last := LastWritten(ops[..i], ops[i].start + j);
      Answers(p, ops)[i].rows[j] == if last.Just? then last.value else p.rows[ops[i].start + j]
    decreases i
  {
    if i > 0 {
      var q := p.After(ops[0]);
      assert OpsOk(ops[1..]) by {
        assert forall k | 0 <= k < |ops[1..]| :: ops[1..][k] == ops[k + 1];
      }
      ReadLaw(q, ops[1..], i - 1, j);
      assert ops[..i][1..] == ops[1..][..i - 1];
      LastOfRest(ops[..i], ops[i].start + j);
    }
  }

  ghost function PlainOf<T>(a: VirtArray<T>): Plain<T>
    reads a
  {
    Plain(a.model, a.firstUndefRow, a.maxAccess, a.preZero)
  }

  /** The same, with given rows where nothing has been written. */
  function Filled<T>(p: Plain<T>, fill: seq<T>): Plain<T>
    requires p.first <= |p.rows| == |fill|
  {
    p.(rows := p.rows[..p.first] + fill[p.first..])
  }

  /** Rows not written may hold anything, unless they are zero. */
  ghost predicate MayHold<T>(p: Plain<T>, fill: seq<T>)
  {
    p.first <= |p.rows| == |fill| && (p.preZero ==> fill[p.first..] == p.rows[p.first..])
  }

  /** One operation is done: rows that became defined held `mid` before the row that is written was stored, and that
      is what they held before if they could be seen. */
  ghost predicate Performed<T>(p: Plain<T>, op: Op<T>, mid: seq<T>, q: Plain<T>, r: Answer<T>)
  {
    && (op.Write? ==> op.k < op.num) && |p.rows| == |mid| && p.first <= q.first <= |mid|
    && (p.preZero ==> mid == p.rows) && mid[..p.first] == p.rows[..p.first]
    && var full := p.(rows := mid);
    !p.Bad(op) && !full.Bad(op) && q.first == full.After(op).first && r == full.Reply(op)
    && q == full.After(op).(rows := q.rows) && |q.rows| == |mid|
    && q.rows[..q.first] == full.After(op).rows[..q.first]
    && (p.preZero ==> q.rows[q.first..] == p.rows[q.first..])
  }

  method Perform<T>(a: VirtArray<T>, op: Op<T>) returns (r: Answer<T>, ghost mid: seq<T>)
    requires a.Valid() && (op.Write? ==> op.k < op.num)
    modifies a, a.memBuffer
    ensures a.Valid() && (r == Error <==> old(PlainOf(a)).Bad(op))
    ensures r != Error ==> Performed(old(PlainOf(a)), op, mid, PlainOf(a), r)
  {
    var s := a.AccessRows(op.start, op.num, op.Write?);
    mid := a.model;
    if s == BadAccess {
      return Error, mid;
    }
    if op.Write? {
      a.PutRow(s.base + op.k, op.row);
      return Done, mid;
    }
    r := Rows(a.memBuffer[s.base..s.base + op.num]);
    assert r.rows == a.model[op.start..op.start + op.num];
  }

  /** What has been answered to the first `i` operations is right, and what is still to come will be, whatever the
      rows hold that have not been written yet.  Those that have been are as `g` says. */
  ghost predicate OnTrack<T(!new)>(p0: Plain<T>, ops: seq<Op<T>>, out: seq<Answer<T>>, g: seq<T>, p: Plain<T>, i: nat)
    requires OpsOk(ops)
  {
    && i <= |ops| && p.first <= |p.rows| == |g| && p0.first <= |p0.rows| == |g|
    && forall fill: seq<T> | MayHold(p, fill) && |fill| == |g| && fill[..p.first] == g[..p.first] ::
      AnswersSo(p0, ops, out, p, i, fill)
  }

  ghost predicate AnswersSo<T>(p0: Plain<T>, ops: seq<Op<T>>, out: seq<Answer<T>>, p: Plain<T>, i: nat, fill: seq<T>)
    requires OpsOk(ops) && i <= |ops| && p.first <= |p.rows| == |fill| && p0.first <= |p0.rows| == |fill|
  {
    Answers(Filled(p0, fill), ops) == out + Answers(Filled(p, fill), ops[i..])
  }

  lemma FilledRows<T>(p: Plain<T>, op: Op<T>, mid: seq<T>, q: Plain<T>, r: Answer<T>, fill: seq<T>)
    requires Performed(p, op, mid, q, r) && MayHold(q, fill)
    requires fill[p.first..q.first] == mid[p.first..q.first]
    ensures MayHold(p, fill) && Filled(p, fill).rows == mid[..q.first] + fill[q.first..]
    ensures p.preZero ==> Filled(p, fill).rows == mid
  {
    hide Performed;
    SameSizes(p, op, mid, q, r);
    assert mid[..q.first] == mid[..p.first] + mid[p.first..q.first];
    assert fill[p.first..] == fill[p.first..q.first] + fill[q.first..];
    if p.preZero {
      assert p.rows[p.first..] == p.rows[p.first..q.first] + p.rows[q.first..];
      assert mid == mid[..q.first] + mid[q.first..];
    }
  }

  lemma FilledStep<T>(p: Plain<T>, op: Op<T>, mid: seq<T>, q: Plain<T>, r: Answer<T>, fill: seq<T>)
    requires Performed(p, op, mid, q, r) && MayHold(q, fill)
    requires fill[p.first..q.first] == mid[p.first..q.first]
    ensures MayHold(p, fill) && !Filled(p, fill).Bad(op)
    ensures Filled(p, fill).After(op) == Filled(q, fill) && Filled(p, fill).Reply(op) == r
  {
    FilledRows(p, op, mid, q, r, fill);
    if op.Read? {
      ReadStep(p, op, mid, q, r, fill);
    } else {
      WriteStep(p, op, mid, q, r, fill);
    }
  }

  lemma ReadStep<T>(p: Plain<T>, op: Op<T>, mid: seq<T>, q: Plain<T>, r: Answer<T>, fill: seq<T>)
    requires Performed(p, op, mid, q, r) && MayHold(q, fill) && MayHold(p, fill) && op.Read?
    requires Filled(p, fill).rows == mid[..q.first] + fill[q.first..] && (p.preZero ==> Filled(p, fill).rows == mid)
    ensures !Filled(p, fill).Bad(op)
    ensures Filled(p, fill).After(op) == Filled(q, fill) && Filled(p, fill).Reply(op) == r
  {
    var f := mid[..q.first] + fill[q.first..];
    assert f[op.start..op.start + op.num] == mid[op.start..op.start + op.num];
  }

  lemma WriteStep<T>(p: Plain<T>, op: Op<T>, mid: seq<T>, q: Plain<T>, r: Answer<T>, fill: seq<T>)
    requires Performed(p, op, mid, q, r) && MayHold(q, fill) && MayHold(p, fill) && op.Write?
    requires Filled(p, fill).rows == mid[..q.first] + fill[q.first..]
    ensures !Filled(p, fill).Bad(op)
    ensures Filled(p, fill).After(op) == Filled(q, fill) && Filled(p, fill).Reply(op) == r
  {
    var f, at := mid[..q.first] + fill[q.first..], op.start + op.k;
    assert f[at := op.row] == mid[at := op.row][..q.first] + fill[q.first..];
  }

  lemma OneMore<T(!new)>(p0: Plain<T>, ops: seq<Op<T>>, out: seq<Answer<T>>, g: seq<T>, p: Plain<T>, i: nat,
        mid: seq<T>, q: Plain<T>, r: Answer<T>)
    requires OpsOk(ops) && OnTrack(p0, ops, out, g, p, i) && i < |ops| && Performed(p, ops[i], mid, q, r)
    ensures |g| == |mid|
    ensures OnTrack(p0, ops, out + [r], g[..p.first] + mid[p.first..q.first] + g[q.first..], q, i + 1)
  {
    hide Performed, MayHold, Filled;
    SameSizes(p, ops[i], mid, q, r);
    var g' := g[..p.first] + mid[p.first..q.first] + g[q.first..];
    forall fill: seq<T> | MayHold(q, fill) && |fill| == |g'| && fill[..q.first] == g'[..q.first]
      ensures AnswersSo(p0, ops, out + [r], q, i + 1, fill)
    {
      assert fill[p.first..q.first] == fill[..q.first][p.first..] == mid[p.first..q.first];
      assert fill[..p.first] == fill[..q.first][..p.first] == g[..p.first];
      FilledStep(p, ops[i], mid, q, r, fill);
      assert AnswersSo(p0, ops, out, p, i, fill);
      assert ops[i..][0] == ops[i] && ops[i..][1..] == ops[i + 1..];
      var later := Answers(Filled(q, fill), ops[i + 1..]);
      assert out + ([r] + later) == (out + [r]) + later;
    }
  }

  lemma SameSizes<T>(p: Plain<T>, op: Op<T>, mid: seq<T>, q: Plain<T>, r: Answer<T>)
    requires Performed(p, op, mid, q, r)
    ensures |p.rows| == |mid| == |q.rows| && p.first <= q.first <= |mid|
    ensures p.rows[..p.first] == mid[..p.first] && (p.preZero ==> mid == p.rows) && q.preZero == p.preZero
    ensures p.preZero ==> q.rows[q.first..] == p.rows[q.first..]
  {
  }

  lemma StartOnTrack<T(!new)>(p: Plain<T>, ops: seq<Op<T>>)
    requires OpsOk(ops) && p.first <= |p.rows|
    ensures OnTrack(p, ops, [], p.rows, p, 0) && MayHold(p, p.rows)
  {
    forall fill: seq<T> | MayHold(p, fill) && |fill| == |p.rows| && fill[..p.first] == p.rows[..p.first]
      ensures AnswersSo(p, ops, [], p, 0, fill)
    {
      assert ops[0..] == ops;
    }
  }

  /** The rows chosen so far, with those that became defined, are still what the array may have held all along. */
  lemma MoreChosen<T>(p0: Plain<T>, rows: seq<T>, p: Plain<T>, op: Op<T>, mid: seq<T>, q: Plain<T>, r: Answer<T>)
    requires MayHold(p0, rows) && MayHold(p, rows) && Performed(p, op, mid, q, r) && p0.preZero == p.preZero
    ensures |rows| == |mid| && p.first <= q.first <= |mid|
    ensures MayHold(p0, rows[..p.first] + mid[p.first..q.first] + rows[q.first..])
    ensures MayHold(q, rows[..p.first] + mid[p.first..q.first] + rows[q.first..])
  {
    hide Performed;
    SameSizes(p, op, mid, q, r);
    var next := rows[..p.first] + mid[p.first..q.first] + rows[q.first..];
    if p.preZero {
      assert rows[p.first..][..q.first - p.first] == rows[p.first..q.first];
      assert mid[p.first..][..q.first - p.first] == mid[p.first..q.first];
      assert next == rows;
      assert rows[q.first..] == rows[p.first..][q.first - p.first..];
      assert p.rows[q.first..] == p.rows[p.first..][q.first - p.first..];
    } else {
      assert |next| == |rows|;
    }
  }

  lemma Refusal<T(!new)>(p0: Plain<T>, ops: seq<Op<T>>, out: seq<Answer<T>>, rows: seq<T>, p: Plain<T>, i: nat)
    requires OpsOk(ops) && OnTrack(p0, ops, out, rows, p, i) && i < |ops| && MayHold(p, rows) && p.Bad(ops[i])
    ensures p0.first <= |p0.rows| == |rows| && Answers(Filled(p0, rows), ops) == out + [Error]
  {
    assert AnswersSo(p0, ops, out, p, i, rows);
    assert ops[i..][0] == ops[i] && Filled(p, rows).Bad(ops[i]);
  }

  lemma AllDone<T(!new)>(p0: Plain<T>, ops: seq<Op<T>>, out: seq<Answer<T>>, rows: seq<T>, p: Plain<T>)
    requires OpsOk(ops) && OnTrack(p0, ops, out, rows, p, |ops|) && MayHold(p, rows)
    ensures p0.first <= |p0.rows| == |rows| && Answers(Filled(p0, rows), ops) == out
  {
    assert AnswersSo(p0, ops, out, p, |ops|, rows);
    assert ops[|ops|..] == [] && out + [] == out;
  }

  /** Whatever strips are read and written, in whatever order, a virtual array answers as an array that is all in
      memory.  What that array holds where it has not been written is what it holds there now if it is pre-zeroed,
      and something, the same for the whole run, if it is not. */
  method Run<T(!new)>(a: VirtArray<T>, ops: seq<Op<T>>) returns (out: seq<Answer<T>>, ghost rows: seq<T>)
    requires a.Valid() && OpsOk(ops)
    modifies a, a.memBuffer
    ensures MayHold(old(PlainOf(a)), rows) && out == Answers(Filled(old(PlainOf(a)), rows), ops)
  {
    hide Performed, MayHold, AnswersSo;
    out := [];
    ghost var p0 := PlainOf(a);
    rows := a.model;
    StartOnTrack(p0, ops);
    var i := 0;
    while i < |ops|
      invariant i <= |ops| && a.Valid() && OnTrack(p0, ops, out, rows, PlainOf(a), i)
      invariant MayHold(p0, rows) && MayHold(PlainOf(a), rows)
    {
      ghost var p := PlainOf(a);
      var r, mid := Perform(a, ops[i]);
      if r == Error {
        Refusal(p0, ops, out, rows, p, i);
        out := out + [r];
        return;
      }
      OneMore(p0, ops, out, rows, p, i, mid, PlainOf(a), r);
      MoreChosen(p0, rows, p, ops[i], mid, PlainOf(a), r);
      rows := rows[..p.first] + mid[p.first..a.firstUndefRow] + rows[a.firstUndefRow..];
      out := out + [r];
      i := i + 1;
    }
    AllDone(p0, ops, out, rows, PlainOf(a));
  }

  // ---------------------------------------------------------------- sharing out memory

  /** What realize_virt_arrays looks at: bytes per row, rows, and rows accessed at once. */
  datatype Request = Request(rowBytes: nat, rows: nat, maxAccess: nat)

  predicate RequestsOk(rs: seq<Request>) { forall i | 0 <= i < |rs| :: rs[i].maxAccess > 0 && rs[i].rowBytes > 0 }

  function MinSpace(rs: seq<Request>): nat
  {
    if rs == [] then 0 else MinSpace(rs[..|rs| - 1]) + rs[|rs| - 1].maxAccess * rs[|rs| - 1].rowBytes
  }

  function FullSpace(rs: seq<Request>): nat
  {
    if rs == [] then 0 else FullSpace(rs[..|rs| - 1]) + rs[|rs| - 1].rows * rs[|rs| - 1].rowBytes
  }

  /** What buffers of the given heights take. */
  function Space(rs: seq<Request>, inMem: seq<nat>): nat
    requires |inMem| == |rs|
  {
    if rs == [] then 0 else Space(rs[..|rs| - 1], inMem[..|rs| - 1]) + inMem[|rs| - 1] * rs[|rs| - 1].rowBytes
  }

  /** A buffer holds the whole array, or else there is a backing store and the buffer is high enough for every
      legal access. */
  predicate HeightOk(r: Request, inMem: nat, bsOpen: bool)
  {
    if bsOpen then inMem < r.rows && 0 < r.maxAccess <= inMem && inMem % r.maxAccess == 0 else inMem == r.rows
  }

  lemma Heights(r: Request, most: nat)
    requires r.maxAccess > 0 && r.rowBytes > 0 && most > 0
    ensures var minheights := (r.rows as int - 1) / r.maxAccess + 1;
      if r.rows == 0 || minheights <= most then r.rows <= most * r.maxAccess else HeightOk(r, most * r.maxAccess, true)
  {
    var n := r.maxAccess;
    MulAtLeast(most, n);
    if r.rows > 0 {
      var q := (r.rows - 1) / n;
      Euclid(r.rows - 1, n);
      if q + 1 <= most {
        EnoughRows(r.rows, n, q, most);
      } else {
        TooFewRows(r.rows, n, q, most);
      }
    }
  }

  lemma Euclid(a: nat, n: nat)
    requires n > 0
    ensures a / n * n <= a < a / n * n + n
  {
  }

  lemma EnoughRows(rows: nat, n: nat, q: nat, most: nat)
    requires q * n <= rows - 1 < q * n + n && q + 1 <= most
    ensures rows <= most * n
  {
    ScaleMono(q + 1, most, n);
    assert (q + 1) * n == q * n + n;
  }

  lemma TooFewRows(rows: nat, n: nat, q: nat, most: nat)
    requires n > 0 && q * n <= rows - 1 < q * n + n && most <= q
    ensures most * n < rows && most * n % n == 0
  {
    ScaleMono(most, q, n);
    DivUnique(most * n, n, most, 0);
  }

  lemma {:induction false} SpaceBound(rs: seq<Request>, inMem: seq<nat>, most: nat)
    requires |inMem| == |rs| && forall i | 0 <= i < |rs| :: inMem[i] <= most * rs[i].maxAccess
    ensures Space(rs, inMem) <= most * MinSpace(rs)
    decreases |rs|
  {
    if rs != [] {
      var n := |rs| - 1;
      SpaceBound(rs[..n], inMem[..n], most);
      ScaleMono(inMem[n], most * rs[n].maxAccess, rs[n].rowBytes);
      assert most * rs[n].maxAccess * rs[n].rowBytes == most * (rs[n].maxAccess * rs[n].rowBytes);
      var a, b := MinSpace(rs[..n]), rs[n].maxAccess * rs[n].rowBytes;
      assert most * (a + b) == most * a + most * b;
    }
  }

  lemma {:induction false} SpaceFull(rs: seq<Request>, inMem: seq<nat>)
    requires |inMem| == |rs| && forall i | 0 <= i < |rs| :: inMem[i] == rs[i].rows
    ensures Space(rs, inMem) == FullSpace(rs)
    decreases |rs|
  {
    if rs != [] {
      SpaceFull(rs[..|rs| - 1], inMem[..|rs| - 1]);
    }
  }

  lemma {:induction false} SomeSpace(rs: seq<Request>)
    requires RequestsOk(rs) && rs != []
    ensures MinSpace(rs) > 0
  {
    var r := rs[|rs| - 1];
    MulAtLeast(r.maxAccess, r.rowBytes);
  }

  const MANY: nat := 1000000000

  /** The space for the minimum heights, and for the full ones. */
  method SumSpace(rs: seq<Request>) returns (spacePerMinheight: nat, maximumSpace: nat)
    ensures spacePerMinheight == MinSpace(rs) && maximumSpace == FullSpace(rs)
  {
    spacePerMinheight, maximumSpace := 0, 0;
    for i := 0 to |rs|
      invariant spacePerMinheight == MinSpace(rs[..i]) && maximumSpace == FullSpace(rs[..i])
    {
      assert rs[..i + 1][..i] == rs[..i];
      spacePerMinheight := spacePerMinheight + rs[i].maxAccess * rs[i].rowBytes;
      maximumSpace := maximumSpace + rs[i].rows * rs[i].rowBytes;
    }
    assert rs[..|rs|] == rs;
  }

  /** Every buffer gets the same number of accesses, or less if that is enough. */
  predicate Parceled(rs: seq<Request>, inMem: seq<nat>, bsOpen: seq<bool>, most: nat)
  {
    |inMem| == |bsOpen| <= |rs| && forall j | 0 <= j < |inMem| :: ParceledOne(rs[j], inMem[j], bsOpen[j], most)
  }

  predicate ParceledOne(r: Request, inMem: nat, bsOpen: bool, most: nat)
  {
    HeightOk(r, inMem, bsOpen) && inMem <= most * r.maxAccess && (most == MANY ==> !bsOpen)
    && (bsOpen ==> inMem == most * r.maxAccess)
  }

  method Parcel(rs: seq<Request>, most: nat) returns (inMem: seq<nat>, bsOpen: seq<bool>)
    requires RequestsOk(rs) && (forall i | 0 <= i < |rs| :: rs[i].rows < MANY) && most > 0
    ensures |inMem| == |rs| && Parceled(rs, inMem, bsOpen, most)
  {
    inMem, bsOpen := [], [];
    for i := 0 to |rs|
      invariant |inMem| == i && Parceled(rs, inMem, bsOpen, most)
    {
      Heights(rs[i], most);
      var minheights := MinHeights(rs[i]);
      var height, open := rs[i].rows, false;
      if minheights > most {
        height, open := most * rs[i].maxAccess, true;
      }
      assert ParceledOne(rs[i], height, open, most);
      inMem, bsOpen := inMem + [height], bsOpen + [open];
    }
  }

  lemma ParceledSpace(rs: seq<Request>, inMem: seq<nat>, bsOpen: seq<bool>, most: nat)
    requires |inMem| == |rs| && Parceled(rs, inMem, bsOpen, most)
    ensures Space(rs, inMem) <= most * MinSpace(rs)
    ensures most == MANY ==> Space(rs, inMem) == FullSpace(rs)
    ensures forall i | 0 <= i < |rs| :: HeightOk(rs[i], inMem[i], bsOpen[i]) && (most == MANY ==> !bsOpen[i])
    ensures forall i | 0 <= i < |rs| :: bsOpen[i] ==> inMem[i] == most * rs[i].maxAccess
  {
    hide Space, MinSpace, FullSpace;
    forall i | 0 <= i < |rs|
      ensures inMem[i] <= most * rs[i].maxAccess && HeightOk(rs[i], inMem[i], bsOpen[i])
          && (most == MANY ==> !bsOpen[i]) && (bsOpen[i] ==> inMem[i] == most * rs[i].maxAccess)
    {
      assert ParceledOne(rs[i], inMem[i], bsOpen[i], most);
    }
    SpaceBound(rs, inMem, most);
    if most == MANY {
      SpaceFull(rs, inMem);
    }
  }

  /** realize_virt_arrays: the height of each buffer and whether it gets a backing store, when `avail` bytes are
      available.  All buffers together fit, unless there is not even room for the minimum; then they take no
      more than that.  The incomplete buffers hold `most` accesses each, and one more for all would not fit. */
  method RealizeArrays(rs: seq<Request>, avail: nat) returns (inMem: seq<nat>, bsOpen: seq<bool>, ghost most: nat)
    requires RequestsOk(rs) && forall i | 0 <= i < |rs| :: rs[i].rows < MANY
    ensures |inMem| == |bsOpen| == |rs| && forall i | 0 <= i < |rs| :: HeightOk(rs[i], inMem[i], bsOpen[i])
    ensures Space(rs, inMem) <= avail || (avail < MinSpace(rs) && Space(rs, inMem) <= MinSpace(rs))
    ensures FullSpace(rs) <= avail ==> forall i | 0 <= i < |rs| :: !bsOpen[i]
    ensures forall i | 0 <= i < |rs| && bsOpen[i] ::
      inMem[i] == most * rs[i].maxAccess && (most + 1) * MinSpace(rs) > avail
  {
    hide Space, MinSpace, FullSpace, HeightOk, Parceled, RequestsOk;
    var spacePerMinheight, maximumSpace := SumSpace(rs);
    NoSpace(rs);
    inMem, bsOpen, most := [], [], 0;
    if spacePerMinheight == 0 {
      return;
    }
    var maxMinheights := MANY;
    if avail < maximumSpace {
      maxMinheights := avail / spacePerMinheight;
      Quotient(avail, spacePerMinheight);
      if maxMinheights == 0 {
        maxMinheights := 1;
      }
    }
    most := maxMinheights;
    inMem, bsOpen := Parcel(rs, maxMinheights);
    ParceledSpace(rs, inMem, bsOpen, maxMinheights);
    ParceledSize(rs, inMem, bsOpen, maxMinheights);
  }

  lemma NoSpace(rs: seq<Request>)
    requires RequestsOk(rs)
    ensures rs == [] ==> Space(rs, []) == 0
    ensures rs != [] ==> MinSpace(rs) > 0
  {
    if rs != [] {
      SomeSpace(rs);
    }
  }

  lemma ParceledSize(rs: seq<Request>, inMem: seq<nat>, bsOpen: seq<bool>, most: nat)
    requires Parceled(rs, inMem, bsOpen, most)
    ensures |inMem| == |bsOpen|
  {
    hide ParceledOne;
  }

  /** How many accesses high the array is; the division truncates toward zero. */
  function MinHeights(r: Request): (n: int)
    requires r.maxAccess > 0
    ensures r.rows > 0 ==> n == (r.rows - 1) / r.maxAccess + 1
    ensures r.rows == 0 ==> n <= 1
    ensures n <= r.rows || n <= 1
  {
    if r.rows == 0 then (if r.maxAccess == 1 then 0 else 1) else (r.rows - 1) / r.maxAccess + 1
  }
}
