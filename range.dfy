/** Index ranges over depth or time (src/Witsml/Range.cs): parsing optional
    bounds, comparing a value with a range in either index direction, and
    mapping an index to the fixed-width chunk that holds it.

    `double` is modelled as `real`: NaN, infinities and rounding are not part
    of this model. */
module Ranges {
  import opened Wrappers

  /** A time-zone offset (System.TimeSpan), in ticks. */
  datatype TimeSpan = TimeSpan(Ticks: int)

  /** A parsed date and time (System.DateTimeOffset): the instant as whole
      seconds since the Unix epoch, as `ToUnixTimeSeconds` gives it, and the
      offset the text was written with. */
  datatype DateTimeOffset = DateTimeOffset(UnixSeconds: int, Offset: TimeSpan)

  /** A range with a start, an end and the time-zone offset of a time range.
      `Range<Option<real>>` is the source's `Range<double?>`, whose bounds may
      be absent; `Range<int>` is a chunk, whose bounds are always present. */
  datatype Range<T> = Range(Start: T, End: T, Offset: Option<TimeSpan>)

  /** The culture-dependent conversions `Parse` relies on
      (`double.TryParse` and `DateTimeOffset.TryParse`); each yields `None`
      on text it cannot read. */
  datatype Parsers = Parsers(
    TryParseDouble: string -> Option<real>,
    TryParseDateTimeOffset: string -> Option<DateTimeOffset>)

  // ---------------------------------------------------------------------
  // Parse
  // ---------------------------------------------------------------------

  /** A bound value converted with `tryParse`; a missing value (`null`) stays
      missing. `Some(text)` stands for the bound object's `ToString()`. */
  function ParseBound<V>(value: Option<string>, tryParse: string -> Option<V>): (r: Option<V>)
    ensures r.Some? ==> value.Some? && tryParse(value.value) == r
    ensures Parses(value, tryParse) ==> r.Some?
  {
    match value
    case None => None
    case Some(text) => tryParse(text)
  }

  /** Unix seconds of a parsed time, as a range bound. */
  function UnixTime(time: Option<DateTimeOffset>): (r: Option<real>)
  {
    match time
    case None => None
    case Some(t) => Some(t.UnixSeconds as real)
  }

  /** True when `value` is present and `tryParse` reads it. */
  predicate Parses<V>(value: Option<string>, tryParse: string -> Option<V>)
  {
    value.Some? && tryParse(value.value).Some?
  }

  /** Parses optional start and end values into a range. A bound that is
      missing or that cannot be parsed is left absent; parsing never fails.
      A time range keeps the offset of its end if the end parses, otherwise
      that of its start; a depth range has no offset. */
  function Parse(start: Option<string>, end: Option<string>, isTime: bool, parsers: Parsers): (r: Range<Option<real>>)
    // depth: each bound is present exactly when its text parses as a number
    ensures !isTime ==> (r.Start.Some? <==> Parses(start, parsers.TryParseDouble))
    ensures !isTime ==> (r.End.Some? <==> Parses(end, parsers.TryParseDouble))
    ensures !isTime && r.Start.Some? ==> parsers.TryParseDouble(start.value) == r.Start
    ensures !isTime && r.End.Some? ==> parsers.TryParseDouble(end.value) == r.End
    ensures !isTime ==> r.Offset.None?
    // time: each bound is present exactly when its text parses as a time, in Unix seconds
    ensures isTime ==> (r.Start.Some? <==> Parses(start, parsers.TryParseDateTimeOffset))
    ensures isTime ==> (r.End.Some? <==> Parses(end, parsers.TryParseDateTimeOffset))
    ensures isTime && r.Start.Some? ==>
      r.Start.value == parsers.TryParseDateTimeOffset(start.value).value.UnixSeconds as real
    ensures isTime && r.End.Some? ==>
      r.End.value == parsers.TryParseDateTimeOffset(end.value).value.UnixSeconds as real
    // time: the end's offset wins over the start's
    ensures isTime && r.End.Some? ==>
      r.Offset == Some(parsers.TryParseDateTimeOffset(end.value).value.Offset)
    ensures isTime && r.End.None? && r.Start.Some? ==>
      r.Offset == Some(parsers.TryParseDateTimeOffset(start.value).value.Offset)
    ensures r.Start.None? && r.End.None? ==> r.Offset.None?
  {
    if isTime then
      var startTime := ParseBound(start, parsers.TryParseDateTimeOffset);
      var endTime := ParseBound(end, parsers.TryParseDateTimeOffset);
      var offset :=
        if endTime.Some? then Some(endTime.value.Offset)
        else if startTime.Some? then Some(startTime.value.Offset)
        else None;
      Range(UnixTime(startTime), UnixTime(endTime), offset)
    else
      Range(ParseBound(start, parsers.TryParseDouble), ParseBound(end, parsers.TryParseDouble), None)
  }

  /** Each bound of a parsed range depends on its own input only. */
  lemma ParseBoundsAreIndependent(start: Option<string>, start': Option<string>,
                                  end: Option<string>, end': Option<string>,
                                  isTime: bool, parsers: Parsers)
    ensures Parse(start, end, isTime, parsers).Start == Parse(start, end', isTime, parsers).Start
    ensures Parse(start, end, isTime, parsers).End == Parse(start', end, isTime, parsers).End
  {
  }

  /** A time range carries an offset exactly when one of its bounds parsed. */
  lemma TimeRangeOffsetPresence(start: Option<string>, end: Option<string>, parsers: Parsers)
    ensures var r := Parse(start, end, true, parsers);
      r.Offset.Some? <==> r.Start.Some? || r.End.Some?
  {
  }

  // ---------------------------------------------------------------------
  // StartsAfter, EndsBefore, Contains
  // ---------------------------------------------------------------------

  /** True when the range starts after `value` in the index direction;
      with `inclusive`, a range starting at `value` counts too. An absent
      start never constrains. (The source defaults `increasing` to true and
      `inclusive` to false.) */
  function StartsAfter(range: Range<Option<real>>, value: real, increasing: bool, inclusive: bool): (r: bool)
    ensures range.Start.None? ==> !r
  {
    if range.Start.None? then false
    else if increasing then
      (if inclusive then value <= range.Start.value else value < range.Start.value)
    else
      (if inclusive then value >= range.Start.value else value > range.Start.value)
  }

  /** True when the range ends before `value` in the index direction;
      with `inclusive`, a range ending at `value` counts too. An absent end
      never constrains. */
  function EndsBefore(range: Range<Option<real>>, value: real, increasing: bool, inclusive: bool): (r: bool)
    ensures range.End.None? ==> !r
  {
    if range.End.None? then false
    else if increasing then
      (if inclusive then value >= range.End.value else value > range.End.value)
    else
      (if inclusive then value <= range.End.value else value < range.End.value)
  }

  /** True when `value` lies between the bounds, both included, in the index
      direction; false unless both bounds are present. */
  function Contains(range: Range<Option<real>>, value: real, increasing: bool): (r: bool)
    ensures r ==> range.Start.Some? && range.End.Some?
  {
    if range.Start.None? || range.End.None? then false
    else if increasing then
      value >= range.Start.value && value <= range.End.value
    else
      value <= range.Start.value && value >= range.End.value
  }

  /** Inclusive comparison is the exclusive one plus equality at the bound. */
  lemma InclusiveAddsOnlyTheBound(range: Range<Option<real>>, value: real, increasing: bool)
    ensures StartsAfter(range, value, increasing, true) <==>
      StartsAfter(range, value, increasing, false) || range.Start == Some(value)
    ensures EndsBefore(range, value, increasing, true) <==>
      EndsBefore(range, value, increasing, false) || range.End == Some(value)
  {
  }

  /** An exclusive "starts after" or "ends before" implies the inclusive one. */
  lemma InclusiveIsWeaker(range: Range<Option<real>>, value: real, increasing: bool)
    ensures StartsAfter(range, value, increasing, false) ==> StartsAfter(range, value, increasing, true)
    ensures EndsBefore(range, value, increasing, false) ==> EndsBefore(range, value, increasing, true)
  {
    InclusiveAddsOnlyTheBound(range, value, increasing);
  }

  /** A range with both bounds contains a value exactly when it neither
      starts after it nor ends before it (exclusive comparisons). */
  lemma ContainsIffNotOutside(range: Range<Option<real>>, value: real, increasing: bool)
    ensures Contains(range, value, increasing) <==>
      range.Start.Some? && range.End.Some? &&
      !StartsAfter(range, value, increasing, false) && !EndsBefore(range, value, increasing, false)
  {
  }

  /** A range with no bounds constrains nothing and contains nothing. */
  lemma UnboundedRange(value: real, increasing: bool, inclusive: bool, offset: Option<TimeSpan>)
    ensures var range := Range(None, None, offset);
      !StartsAfter(range, value, increasing, inclusive) &&
      !EndsBefore(range, value, increasing, inclusive) &&
      !Contains(range, value, increasing)
  {
  }

  /** The range mirrored through zero: every present bound negated. */
  function Negated(range: Range<Option<real>>): Range<Option<real>>
  {
    var neg := (b: Option<real>) => if b.Some? then Some(-b.value) else None;
    Range(neg(range.Start), neg(range.End), range.Offset)
  }

  /** Decreasing comparisons are the increasing ones on the mirrored range
      and the mirrored value. */
  lemma DirectionDuality(range: Range<Option<real>>, value: real, inclusive: bool)
    ensures StartsAfter(range, value, false, inclusive) == StartsAfter(Negated(range), -value, true, inclusive)
    ensures EndsBefore(range, value, false, inclusive) == EndsBefore(Negated(range), -value, true, inclusive)
    ensures Contains(range, value, false) == Contains(Negated(range), -value, true)
  {
  }

  /** Mirroring a range twice gives the range back, so the duality runs
      both ways: increasing comparisons are the decreasing ones on the
      mirrored range. */
  lemma NegatedIsInvolution(range: Range<Option<real>>)
    ensures Negated(Negated(range)) == range
  {
  }

  // ---------------------------------------------------------------------
  // ComputeRange
  // ---------------------------------------------------------------------

  /** Math.Floor: the greatest integer not above `x`. */
  function Floor(x: real): (r: int)
    ensures r as real <= x < r as real + 1.0
  {
    x.Floor
  }

  /** Math.Ceiling: the least integer not below `x`. */
  function Ceiling(x: real): (r: int)
    ensures r as real - 1.0 < x <= r as real
  {
    if x.Floor as real == x then x.Floor else x.Floor + 1
  }

  /** Only one integer lies in a half-open interval of width one. */
  lemma UnitIntervalHoldsOneInteger(a: int, b: int, x: real)
    requires a as real <= x < a as real + 1.0
    requires b as real <= x < b as real + 1.0
    ensures a == b
  {
  }

  /** Ceiling is Floor mirrored through zero. */
  lemma CeilingIsNegatedFloor(x: real)
    ensures Ceiling(x) == -Floor(-x)
  {
    var c := Ceiling(x);
    UnitIntervalHoldsOneInteger(-c, Floor(-x), -x);
  }

  /** A non-zero multiple of `size` is at least `size` away from zero. */
  lemma NonZeroMultiple(d: int, size: int)
    requires size > 0
    ensures d >= 1 ==> d * size >= size
    ensures d <= -1 ==> d * size <= -size
  {
    if d >= 1 {
      assert d * size == (d - 1) * size + size;
    } else if d <= -1 {
      assert d * size == (d + 1) * size - size;
    }
  }

  /** A multiple of `size` leaves no remainder. */
  lemma MultipleIsAligned(k: int, size: int)
    requires size > 0
    ensures (k * size) % size == 0
  {
    var q, m := (k * size) / size, (k * size) % size;
    assert k * size == q * size + m;
    assert (k - q) * size == m;
    NonZeroMultiple(k - q, size);
  }

  /** An integer product, read as a real, is the product of the reals. */
  lemma ProductAsReal(k: int, size: int)
    ensures (k * size) as real == (k as real) * (size as real)
  {
  }

  /** Dividing by a positive number and multiplying back gives the number. */
  lemma DivideThenScale(index: real, c: real)
    requires c > 0.0
    ensures (index / c) * c == index
  {
  }

  /** Multiplying by a positive number keeps order, strict and non-strict. */
  lemma ScalePreservesOrder(a: real, b: real, c: real)
    requires c > 0.0
    ensures a <= b ==> a * c <= b * c
    ensures a < b ==> a * c < b * c
  {
  }

  /** A chunk number at or below `q = index / size`, scaled back to index
      units, is at or below the index. */
  lemma BoundBelowIndex(lo: int, size: int, q: real, index: real)
    requires size > 0
    requires q * (size as real) == index
    ensures lo as real <= q ==> (lo * size) as real <= index
    ensures lo as real < q ==> (lo * size) as real < index
  {
    var c := size as real;
    var bound := (lo as real) * c;
    assert (lo as real <= q ==> bound <= q * c) && (lo as real < q ==> bound < q * c) by {
      ScalePreservesOrder(lo as real, q, c);
    }
    assert (lo * size) as real == bound by { ProductAsReal(lo, size); }
  }

  /** A chunk number at or above `q = index / size`, scaled back to index
      units, is at or above the index. */
  lemma BoundAboveIndex(hi: int, size: int, q: real, index: real)
    requires size > 0
    requires q * (size as real) == index
    ensures q <= hi as real ==> index <= (hi * size) as real
    ensures q < hi as real ==> index < (hi * size) as real
  {
    var c := size as real;
    var bound := (hi as real) * c;
    assert (q <= hi as real ==> q * c <= bound) && (q < hi as real ==> q * c < bound) by {
      ScalePreservesOrder(q, hi as real, c);
    }
    assert (hi * size) as real == bound by { ProductAsReal(hi, size); }
  }

  /** The multiples of `size` next to `k * size`. */
  lemma NeighbouringMultiples(k: int, size: int)
    ensures (k + 1) * size == k * size + size
    ensures (k - 1) * size == k * size - size
  {
  }

  /** The floor chunk number, scaled back to index units, brackets the index. */
  lemma FloorChunkBrackets(index: real, size: int)
    requires size > 0
    ensures var k := Floor(index / size as real);
      (k * size) as real <= index < (k * size + size) as real
  {
    var q := index / size as real;
    var k := Floor(q);
    assert index < ((k + 1) * size) as real && (k * size) as real <= index by {
      DivideThenScale(index, size as real);
      BoundBelowIndex(k, size, q, index);
      BoundAboveIndex(k + 1, size, q, index);
    }
    NeighbouringMultiples(k, size);
  }

  /** The ceiling chunk number, scaled back to index units, brackets the index. */
  lemma CeilingChunkBrackets(index: real, size: int)
    requires size > 0
    ensures var k := Ceiling(index / size as real);
      (k * size - size) as real < index <= (k * size) as real
  {
    var q := index / size as real;
    var k := Ceiling(q);
    assert ((k - 1) * size) as real < index && index <= (k * size) as real by {
      DivideThenScale(index, size as real);
      BoundBelowIndex(k - 1, size, q, index);
      BoundAboveIndex(k, size, q, index);
    }
    NeighbouringMultiples(k, size);
  }

  /** Computes the chunk of width `rangeSize` that holds `index`: aligned to
      a multiple of `rangeSize`, reaching one chunk width forwards from its
      start for an increasing index and backwards for a decreasing one. The
      start is the chunk number (floor of `index / rangeSize` when increasing,
      ceiling when decreasing) times the width. */
  function ComputeRange(index: real, rangeSize: int, increasing: bool): (r: Range<int>)
    requires rangeSize > 0
    ensures r.Start % rangeSize == 0
    ensures r.Offset.None?
    ensures increasing ==> r.End == r.Start + rangeSize && r.Start as real <= index < r.End as real
    ensures !increasing ==> r.End == r.Start - rangeSize && r.End as real < index <= r.Start as real
  {
    var quotient := index / rangeSize as real;
    var rangeIndex := if increasing then Floor(quotient) else Ceiling(quotient);
    MultipleIsAligned(rangeIndex, rangeSize);
    if increasing then
      FloorChunkBrackets(index, rangeSize);
      Range(rangeIndex * rangeSize, rangeIndex * rangeSize + rangeSize, None)
    else
      CeilingChunkBrackets(index, rangeSize);
      Range(rangeIndex * rangeSize, rangeIndex * rangeSize - rangeSize, None)
  }

  /** Two multiples of `size` closer than `size` are equal. */
  lemma AlignedNeighboursCoincide(a: int, b: int, size: int)
    requires size > 0
    requires a % size == 0 && b % size == 0
    requires a - size < b < a + size
    ensures a == b
  {
    var d := a / size - b / size;
    assert a - b == d * size;
    NonZeroMultiple(d, size);
  }

  /** The chunk of an increasing index is the only aligned chunk holding it:
      every index maps to exactly one chunk. */
  lemma ChunkIsUnique(index: real, rangeSize: int, start: int)
    requires rangeSize > 0
    requires start % rangeSize == 0
    requires start as real <= index < (start + rangeSize) as real
    ensures ComputeRange(index, rangeSize, true) == Range(start, start + rangeSize, None)
    ensures start == Floor(index / rangeSize as real) * rangeSize
  {
    var r := ComputeRange(index, rangeSize, true);
    AlignedNeighboursCoincide(r.Start, start, rangeSize);
  }

  /** A chunk mirrored through zero. */
  function NegatedChunk(chunk: Range<int>): Range<int>
  {
    Range(-chunk.Start, -chunk.End, chunk.Offset)
  }

  /** The chunk of a decreasing index is the mirror image of the chunk of
      the negated index on an increasing axis. */
  lemma ComputeRangeDuality(index: real, rangeSize: int)
    requires rangeSize > 0
    ensures ComputeRange(index, rangeSize, false) == NegatedChunk(ComputeRange(-index, rangeSize, true))
  {
    var x := index / rangeSize as real;
    assert -index / rangeSize as real == -x;
    CeilingIsNegatedFloor(x);
    var k := Floor(-x);
    assert -k * rangeSize == -(k * rangeSize);
  }

  /** The chunk of a decreasing index is the only aligned chunk holding it. */
  lemma DecreasingChunkIsUnique(index: real, rangeSize: int, start: int)
    requires rangeSize > 0
    requires start % rangeSize == 0
    requires (start - rangeSize) as real < index <= start as real
    ensures ComputeRange(index, rangeSize, false) == Range(start, start - rangeSize, None)
    ensures start == Ceiling(index / rangeSize as real) * rangeSize
  {
    MultipleIsAligned(-(start / rangeSize), rangeSize);
    assert -start == -(start / rangeSize) * rangeSize;
    ChunkIsUnique(-index, rangeSize, -start);
    ComputeRangeDuality(index, rangeSize);
  }

  /** Chunks tile the axis: the index just past an increasing chunk falls in
      the next chunk, which starts where the previous one ended. */
  lemma ChunksAreAdjacent(index: real, rangeSize: int)
    requires rangeSize > 0
    ensures var r := ComputeRange(index, rangeSize, true);
      ComputeRange(r.End as real, rangeSize, true) == Range(r.End, r.End + rangeSize, None)
  {
    var r := ComputeRange(index, rangeSize, true);
    assert r.End == (r.Start / rangeSize + 1) * rangeSize;
    MultipleIsAligned(r.Start / rangeSize + 1, rangeSize);
    ChunkIsUnique(r.End as real, rangeSize, r.End);
  }

  /** A chunk as a range with both bounds present. */
  function ChunkBounds(chunk: Range<int>): Range<Option<real>>
  {
    Range(Some(chunk.Start as real), Some(chunk.End as real), chunk.Offset)
  }

  /** The chunk computed for an index contains that index, in either
      direction, and the index is not past the chunk's end. */
  lemma ChunkContainsIndex(index: real, rangeSize: int, increasing: bool)
    requires rangeSize > 0
    ensures var bounds := ChunkBounds(ComputeRange(index, rangeSize, increasing));
      Contains(bounds, index, increasing) &&
      !StartsAfter(bounds, index, increasing, false) &&
      !EndsBefore(bounds, index, increasing, true)
  {
  }

  /** The decreasing chunk of an index, taken as a range, is the mirror
      image of the increasing chunk of the negated index, so the range
      comparisons on the two chunks agree by DirectionDuality. */
  lemma ChunkBoundsDuality(index: real, rangeSize: int)
    requires rangeSize > 0
    ensures ChunkBounds(ComputeRange(index, rangeSize, false)) ==
      Negated(ChunkBounds(ComputeRange(-index, rangeSize, true)))
  {
    ComputeRangeDuality(index, rangeSize);
  }
}
