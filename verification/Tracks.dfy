/**
 Dividing a length among tracks, as the box and flex layouts of libgwm do: a
 track of proportion 0 keeps its own length, the others share what is left.
 */
module Tracks {
  import opened CArith

  datatype Track = Track(len: nat, prop: nat)

  function Fixed(ts: seq<Track>): nat {
    if ts == [] then 0
    else Fixed(ts[..|ts| - 1]) + (if ts[|ts| - 1].prop == 0 then ts[|ts| - 1].len else 0)
  }

  function Units(ts: seq<Track>): nat {
    if ts == [] then 0 else Units(ts[..|ts| - 1]) + ts[|ts| - 1].prop
  }

  /** What a unit comes to when `length` is divided. */
  function UnitLen(ts: seq<Track>, length: int): int {
    if Units(ts) == 0 then 0 else TruncDiv(length - Fixed(ts), Units(ts))
  }

  function Given(t: Track, unit: int): int {
    if t.prop == 0 then t.len else t.prop * unit
  }

  /** Where track i starts: the tracks before it, one after another. */
  function Offset(ts: seq<Track>, unit: int, i: nat): int
    requires i <= |ts|
  {
    if i == 0 then 0 else Offset(ts, unit, i - 1) + Given(ts[i - 1], unit)
  }

  lemma {:induction false} SumsOfPrefix(ts: seq<Track>, i: nat)
    requires i < |ts|
    ensures Fixed(ts[..i + 1]) == Fixed(ts[..i]) + (if ts[i].prop == 0 then ts[i].len else 0)
    ensures Units(ts[..i + 1]) == Units(ts[..i]) + ts[i].prop
  {
    assert ts[..i + 1][..i] == ts[..i];
  }

  lemma {:induction false} UnitsGrow(ts: seq<Track>, i: nat)
    requires i <= |ts|
    ensures Units(ts[..i]) <= Units(ts)
    decreases |ts| - i
  {
    if i == |ts| {
      assert ts[..i] == ts;
    } else {
      UnitsGrow(ts, i + 1);
      SumsOfPrefix(ts, i);
    }
  }

  lemma {:induction false} HasUnits(ts: seq<Track>, i: nat)
    requires i < |ts| && ts[i].prop != 0
    ensures Units(ts) > 0
  {
    SumsOfPrefix(ts, i);
    UnitsGrow(ts, i + 1);
  }

  lemma {:induction false} OffsetIs(ts: seq<Track>, unit: int, i: nat)
    requires i <= |ts|
    ensures Offset(ts, unit, i) == Fixed(ts[..i]) + unit * Units(ts[..i])
  {
    if i > 0 {
      OffsetIs(ts, unit, i - 1);
      SumsOfPrefix(ts, i - 1);
      assert unit * (Units(ts[..i - 1]) + ts[i - 1].prop) == unit * Units(ts[..i - 1]) + unit * ts[i - 1].prop;
    } else {
      assert unit * 0 == 0;
    }
  }

  lemma GivenNonNegative(t: Track, unit: int)
    requires unit >= 0
    ensures Given(t, unit) >= 0
  {
    TimesMonotone(0, t.prop, unit);
  }

  lemma {:induction false} OffsetsGrow(ts: seq<Track>, unit: int, i: nat, j: nat)
    requires i <= j <= |ts| && unit >= 0
    ensures Offset(ts, unit, i) <= Offset(ts, unit, j)
  {
    if i < j {
      OffsetsGrow(ts, unit, i, j - 1);
      GivenNonNegative(ts[j - 1], unit);
    }
  }

  /**
   If the length reaches the fixed tracks plus `longest` for every unit, each
   unit gets `longest` at least, the tracks fit into the length, and less than
   one pixel per unit is left over.
   */
  lemma {:induction false} UnitsAreEnough(ts: seq<Track>, longest: nat, length: nat)
    requires Fixed(ts) + longest * Units(ts) <= length
    ensures UnitLen(ts, length) >= 0
    ensures Units(ts) > 0 ==> UnitLen(ts, length) >= longest
    ensures Offset(ts, UnitLen(ts, length), |ts|) <= length
    ensures Units(ts) > 0 ==> length < Offset(ts, UnitLen(ts, length), |ts|) + Units(ts)
  {
    hide Fixed, Units, Offset;
    assert ts[..|ts|] == ts;
    var n, unit := Units(ts), UnitLen(ts, length);
    OffsetIs(ts, unit, |ts|);
    TimesMonotone(0, longest, n);
    if n > 0 {
      DivAtLeast(length - Fixed(ts), longest, n);
      DivBounds(length - Fixed(ts), n);
      assert unit * n == (length - Fixed(ts)) / n * n;
    }
  }

  lemma UnitLenIs(ts: seq<Track>, length: int)
    ensures UnitLen(ts, length) == if Units(ts) != 0 then TruncDiv(length - Fixed(ts), Units(ts)) else 0
    ensures Offset(ts, UnitLen(ts, length), 0) == 0
  {
  }

  lemma NextOffset(ts: seq<Track>, unit: int, i: nat)
    requires i < |ts|
    ensures Offset(ts, unit, 0) == 0 && Offset(ts, unit, i + 1) == Offset(ts, unit, i) + Given(ts[i], unit)
  {
  }

  /** Tracks lie one after another inside the length. */
  lemma {:induction false} TracksInside(ts: seq<Track>, longest: nat, length: nat, i: nat)
    requires Fixed(ts) + longest * Units(ts) <= length && i < |ts|
    ensures var unit := UnitLen(ts, length);
      && unit >= 0
      && 0 <= Offset(ts, unit, i) && Offset(ts, unit, i) + Given(ts[i], unit) <= length
      && forall j :: i < j < |ts| ==> Offset(ts, unit, i) + Given(ts[i], unit) <= Offset(ts, unit, j)
  {
    hide Fixed, Units, Given, UnitLen, Offset;
    var unit := UnitLen(ts, length);
    UnitsAreEnough(ts, longest, length);
    OffsetsGrow(ts, unit, 0, i);
    NextOffset(ts, unit, i);
    OffsetsGrow(ts, unit, i + 1, |ts|);
    forall j | i < j < |ts| ensures Offset(ts, unit, i) + Given(ts[i], unit) <= Offset(ts, unit, j) {
      OffsetsGrow(ts, unit, i + 1, j);
    }
  }
}
