/** Internal time values: every partitioning type maps its values onto int64
    "internal time" (microseconds for the temporal types, the value itself for the
    integer types). This module gives each type's range, its "no begin"/"no end"
    sentinels, saturating addition on internal time and PostgreSQL's rule for
    adding an interval to a possibly infinite timestamp. */
module TimeUtils {
  import opened Base
  import opened CatalogModel

  const INT16_MIN: int := -0x8000
  const INT16_MAX: int := 0x7FFF
  const INT32_MIN: int := -0x8000_0000
  const INT32_MAX: int := 0x7FFF_FFFF
  const INT64_MIN: int := -0x8000_0000_0000_0000
  const INT64_MAX: int := 0x7FFF_FFFF_FFFF_FFFF

  /** The smallest value of a partitioning type, in internal time. */
  function TypeMin(pt: PartitionType): int
  {
    match pt
    case IntegerType(w) => (match w case Int16 => INT16_MIN case Int32 => INT32_MIN case Int64 => INT64_MIN)
    case TemporalType(_, min, _) => min
  }

  /** The largest value of a partitioning type, in internal time. */
  function TypeMax(pt: PartitionType): int
  {
    match pt
    case IntegerType(w) => (match w case Int16 => INT16_MAX case Int32 => INT32_MAX case Int64 => INT64_MAX)
    case TemporalType(_, _, max) => max
  }

  /** A temporal type's range lies strictly inside int64, leaving room for the
      -infinity and +infinity sentinels. */
  predicate ValidPartitionType(pt: PartitionType)
  {
    pt.TemporalType? ==> DT_NOBEGIN < pt.min < 0 < pt.max < DT_NOEND
  }

  /** -infinity for the temporal types, the minimum for the integer types. */
  function NoBeginOrMin(pt: PartitionType): int
  {
    if pt.IntegerType? then TypeMin(pt) else DT_NOBEGIN
  }

  /** +infinity for the temporal types, the maximum for the integer types. */
  function NoEndOrMax(pt: PartitionType): int
  {
    if pt.IntegerType? then TypeMax(pt) else DT_NOEND
  }

  /** Internal-time addition that saturates instead of leaving the type's range: a
      sum of two positives beyond the maximum becomes +infinity (or the maximum), a
      sum of two negatives below the minimum becomes -infinity (or the minimum). */
  function SaturatingAdd(value: int, delta: int, pt: PartitionType): int
  {
    if value > 0 && delta > 0 && value > TypeMax(pt) - delta then NoEndOrMax(pt)
    else if value < 0 && delta < 0 && value < TypeMin(pt) - delta then NoBeginOrMin(pt)
    else value + delta
  }

  /** For an integer type and in-range operands, saturating addition is the sum
      clamped to the type's range. */
  lemma SaturatingAddIsClampedSum(value: int, delta: int, pt: PartitionType)
    requires pt.IntegerType?
    requires TypeMin(pt) <= value <= TypeMax(pt) && TypeMin(pt) <= delta <= TypeMax(pt)
    ensures SaturatingAdd(value, delta, pt)
            == if value + delta > TypeMax(pt) then TypeMax(pt)
               else if value + delta < TypeMin(pt) then TypeMin(pt)
               else value + delta
  {
    assert TypeMin(pt) < 0 < TypeMax(pt) by {
      match pt.width
      case Int16 =>
      case Int32 =>
      case Int64 =>
    }
  }

  /** For a temporal type and in-range operands, saturating addition gives the sum
      when it is in range, +infinity when it is above and -infinity when it is below. */
  lemma SaturatingAddTemporal(value: int, delta: int, pt: PartitionType)
    requires pt.TemporalType? && ValidPartitionType(pt)
    requires TypeMin(pt) <= value <= TypeMax(pt) && TypeMin(pt) <= delta <= TypeMax(pt)
    ensures var r := SaturatingAdd(value, delta, pt);
            && (TypeMin(pt) <= value + delta <= TypeMax(pt) ==> r == value + delta)
            && (value + delta > TypeMax(pt) ==> r == DT_NOEND)
            && (value + delta < TypeMin(pt) ==> r == DT_NOBEGIN)
  {
  }

  /** PostgreSQL's timestamp + interval: an infinite timestamp stays as it is. */
  function TimestampPlusInterval(ts: int, usecs: int): (r: int)
    ensures ts == DT_NOBEGIN ==> r == DT_NOBEGIN
    ensures ts != DT_NOBEGIN && ts != DT_NOEND ==> r - usecs == ts
  {
    if ts == DT_NOBEGIN || ts == DT_NOEND then ts else ts + usecs
  }
}
