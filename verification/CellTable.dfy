/**
 The rows that the grid and flex layouts share (libgwm/gridlayout.c:45-75,
 235-314 and libgwm/flexlayout.c:51-79, 400-446): a bitmap of the taken columns
 and an entry for every column. The linked list of rows is a sequence.
 */
module CellTable {
  import opened LinkedLists

  datatype Row<T> = Row(bitmap: seq<bv8>, ents: seq<Option<T>>)

  /** 1 << i */
  function Mask(i: nat): bv8
    requires i < 8
  {
    match i
    case 0 => 1
    case 1 => 2
    case 2 => 4
    case 3 => 8
    case 4 => 16
    case 5 => 32
    case 6 => 64
    case _ => 128
  }

  predicate Meets(b: bv8, m: bv8) { b & m != 0 }

  predicate HasBit(b: bv8, i: nat)
    requires i < 8
  {
    Meets(b, Mask(i))
  }

  lemma SetBit(b: bv8, i: nat, j: nat)
    requires i < 8 && j < 8
    ensures HasBit(b | Mask(i), j) <==> i == j || HasBit(b, j)
  {
    hide Mask, Meets;
    if i == j {
      MaskIsSet(i);
      OrMeets(b, Mask(i));
    } else {
      MasksApart(i, j);
      OrApart(b, Mask(i), Mask(j));
    }
  }

  lemma MaskIsSet(i: nat)
    requires i < 8
    ensures Mask(i) != 0
  {
  }

  lemma OrMeets(b: bv8, m: bv8)
    requires m != 0
    ensures Meets(b | m, m)
  {
  }

  lemma MasksApart(i: nat, j: nat)
    requires i < 8 && j < 8 && i != j
    ensures !Meets(Mask(i), Mask(j))
  {
  }

  lemma OrApart(b: bv8, m: bv8, n: bv8)
    requires !Meets(m, n)
    ensures Meets(b | m, n) <==> Meets(b, n)
  {
  }

  ghost predicate RowOk<T>(cols: nat, r: Row<T>) {
    |r.bitmap| == cols / 8 + 1 && |r.ents| == cols
  }

  predicate ColTaken<T>(cols: nat, r: Row<T>, col: nat)
    requires |r.bitmap| == cols / 8 + 1 && col < cols
  {
    HasBit(r.bitmap[col / 8], col % 8)
  }

  function EmptyRow<T>(cols: nat): (r: Row<T>)
    ensures RowOk(cols, r)
    ensures forall c: nat :: c < cols ==> !ColTaken(cols, r, c) && r.ents[c] == None
  {
    Row(seq(cols / 8 + 1, _ => 0), seq(cols, _ => None))
  }

  lemma TakeColumn<T>(cols: nat, r: Row<T>, col: nat, s: Row<T>)
    requires RowOk(cols, r) && col < cols
    requires s == r.(bitmap := r.bitmap[col / 8 := r.bitmap[col / 8] | Mask(col % 8)])
    ensures RowOk(cols, s)
    ensures forall c: nat :: c < cols ==> (ColTaken(cols, s, c) <==> c == col || ColTaken(cols, r, c))
  {
    hide HasBit, Mask;
    forall c: nat | c < cols ensures ColTaken(cols, s, c) <==> c == col || ColTaken(cols, r, c) {
      if c / 8 == col / 8 {
        SetBit(r.bitmap[c / 8], col % 8, c % 8);
      }
    }
  }

  ghost predicate TableOk<T>(cols: nat, rows: seq<Row<T>>) {
    forall r :: 0 <= r < |rows| ==> RowOk(cols, rows[r])
  }

  /** The bit of a cell; cells below the last row are free. */
  ghost predicate Set<T>(cols: nat, rows: seq<Row<T>>, col: nat, row: nat)
    requires TableOk(cols, rows) && col < cols
  {
    row < |rows| && ColTaken(cols, rows[row], col)
  }

  ghost function Entry<T>(cols: nat, rows: seq<Row<T>>, col: nat, row: nat): Option<T>
    requires TableOk(cols, rows) && col < cols
  {
    if row < |rows| then rows[row].ents[col] else None
  }

  class Table<T> {
    const cols: nat
    var rows: seq<Row<T>>

    ghost predicate Valid()
      reads this
    {
      TableOk(cols, rows)
    }

    constructor (columns: nat)
      ensures Valid() && cols == columns && rows == []
    {
      cols := columns;
      rows := [];
    }

    /** isTaken: nothing is taken below the rows, everything beside the columns is. */
    method IsTaken(col: nat, row: nat) returns (taken: bool)
      requires Valid()
      ensures col < cols ==> (taken <==> Set(cols, rows, col, row))
      ensures col >= cols ==> (taken <==> row < |rows|)
    {
      if |rows| <= row { return false; }
      if cols <= col { return true; }
      var r := 0;
      var left := row;
      while left != 0
        invariant r + left == row
        decreases left
      {
        left := left - 1;
        r := r + 1;
      }
      taken := HasBit(rows[r].bitmap[col / 8], col % 8);
    }

    /** markTaken: sets one bit; rows are added until there is one for it. */
    method MarkTaken(col: nat, row: nat)
      requires Valid() && col < cols
      modifies this
      ensures Valid()
      ensures |rows| == if row < old(|rows|) then old(|rows|) else row + 1
      ensures forall c: nat, r: nat :: c < cols ==>
        (Set(cols, rows, c, r) <==> (c == col && r == row) || old(Set(cols, rows, c, r)))
      ensures forall c: nat, r: nat :: c < cols ==> Entry(cols, rows, c, r) == old(Entry(cols, rows, c, r))
    {
      hide HasBit, ColTaken;
      if rows == [] {
        rows := [EmptyRow(cols)];
      }
      var r := 0;
      var left := row;
      while left != 0
        invariant Valid() && 0 <= left && r + left == row && r < |rows|
        invariant |rows| >= old(|rows|) && (|rows| > old(|rows|) ==> |rows| == r + 1)
        invariant forall c: nat, q: nat :: c < cols ==> (Set(cols, rows, c, q) <==> old(Set(cols, rows, c, q)))
        invariant forall c: nat, q: nat :: c < cols ==> Entry(cols, rows, c, q) == old(Entry(cols, rows, c, q))
        decreases left
      {
        left := left - 1;
        if r + 1 == |rows| {
          rows := rows + [EmptyRow(cols)];
        }
        r := r + 1;
      }
      ghost var was := rows[r];
      rows := rows[r := rows[r].(bitmap := rows[r].bitmap[col / 8 := rows[r].bitmap[col / 8] | Mask(col % 8)])];
      TakeColumn(cols, was, col, rows[r]);
    }

    /** Puts an entry into a row that is already there. */
    method Enter(col: nat, row: nat, e: T)
      requires Valid() && col < cols && row < |rows|
      modifies this
      ensures Valid() && |rows| == old(|rows|)
      ensures forall c: nat, r: nat :: c < cols ==> (Set(cols, rows, c, r) <==> old(Set(cols, rows, c, r)))
      ensures forall c: nat, r: nat :: c < cols ==>
        Entry(cols, rows, c, r) == if c == col && r == row then Some(e) else old(Entry(cols, rows, c, r))
    {
      hide HasBit;
      var r := 0;
      var left := row;
      while left != 0
        invariant r + left == row
        decreases left
      {
        left := left - 1;
        r := r + 1;
      }
      rows := rows[r := rows[r].(ents := rows[r].ents[col := Some(e)])];
    }
  }
}
