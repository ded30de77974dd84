/** Column tables as the fixture reads them back from its CSV snapshots: an
    ordered list of named columns, each holding values of one kind. */
module Tables {

  datatype Option<+T> = None | Some(value: T)

  /** The values of one column, tagged by their kind. In a floating or an
      object column `None` is a missing entry (NaN, or an empty CSV cell);
      integer and boolean columns have no missing entries. */
  datatype Values =
    | Floats(floats: seq<Option<real>>)
    | Ints(ints: seq<int>)
    | Bools(bools: seq<bool>)
    | Objects(objects: seq<Option<string>>)
  {
    function Length(): nat
    {
      match this
      case Floats(s) => |s|
      case Ints(s) => |s|
      case Bools(s) => |s|
      case Objects(s) => |s|
    }

    predicate SameKind(other: Values)
    {
      || (Floats? && other.Floats?)
      || (Ints? && other.Ints?)
      || (Bools? && other.Bools?)
      || (Objects? && other.Objects?)
    }

    /** The entry at row `i`, as a kind-tagged cell. */
    function At(i: nat): Cell
      requires i < Length()
    {
      match this
      case Floats(s) => FloatCell(s[i])
      case Ints(s) => IntCell(s[i])
      case Bools(s) => BoolCell(s[i])
      case Objects(s) => ObjectCell(s[i])
    }

    /** Whether the entry at row `i` is missing, as the data frame library's
        missing-value test sees it. */
    predicate IsMissing(i: nat)
      requires i < Length()
    {
      match this
      case Floats(s) => s[i].None?
      case Ints(_) => false
      case Bools(_) => false
      case Objects(s) => s[i].None?
    }
  }

  /** One entry of a column, tagged by the column's kind. */
  datatype Cell =
    | FloatCell(floatValue: Option<real>)
    | IntCell(intValue: int)
    | BoolCell(boolValue: bool)
    | ObjectCell(objectValue: Option<string>)

  datatype Column = Column(name: string, values: Values)

  /** Columns in file order. */
  type Table = seq<Column>

  function Names(t: Table): seq<string>
  {
    seq(|t|, i requires 0 <= i < |t| => t[i].name)
  }

  /** Column names in a table read from CSV are distinct: the reader renames
      repeated headers. */
  predicate DistinctNames(t: Table)
  {
    forall i, j :: 0 <= i < j < |t| ==> t[i].name != t[j].name
  }

  /** Position of the first column called `k`, if any. */
  function Find(t: Table, k: string): (r: Option<nat>)
    ensures r.None? <==> forall j :: 0 <= j < |t| ==> t[j].name != k
    ensures r.Some? ==> r.value < |t| && t[r.value].name == k
    ensures r.Some? ==> forall j :: 0 <= j < r.value ==> t[j].name != k
  {
    if |t| == 0 then None
    else if t[0].name == k then Some(0)
    else
      match Find(t[1..], k)
      case None => None
      case Some(j) => Some(j + 1)
  }

  /** The values of the column called `k`: `get(k)` on a data frame, `None`
      when there is no such column. */
  function Lookup(t: Table, k: string): (r: Option<Values>)
    ensures r.None? <==> k !in Names(t)
    ensures r.Some? ==> exists i :: 0 <= i < |t| && t[i].name == k && t[i].values == r.value
  {
    assert forall j :: 0 <= j < |t| ==> Names(t)[j] == t[j].name;
    match Find(t, k)
    case None => None
    case Some(i) => Some(t[i].values)
  }

  /** In a table with distinct names, looking up a column's own name finds
      that column. */
  lemma LookupOwnName(t: Table, i: nat)
    requires DistinctNames(t) && i < |t|
    ensures Lookup(t, t[i].name) == Some(t[i].values)
  {
    assert Names(t)[i] == t[i].name;
  }

  /** The entries at rows `ids`, in that order: indexing a column by a list of
      row positions. */
  function Select(v: Values, ids: seq<nat>): (r: Values)
    requires forall k :: 0 <= k < |ids| ==> ids[k] < v.Length()
    ensures r.SameKind(v) && r.Length() == |ids|
    ensures forall k :: 0 <= k < |ids| ==> r.At(k) == v.At(ids[k])
  {
    match v
    case Floats(s) =>
      assert |s| == v.Length();
      Floats(seq(|ids|, k requires 0 <= k < |ids| => s[ids[k]]))
    case Ints(s) =>
      assert |s| == v.Length();
      Ints(seq(|ids|, k requires 0 <= k < |ids| => s[ids[k]]))
    case Bools(s) =>
      assert |s| == v.Length();
      Bools(seq(|ids|, k requires 0 <= k < |ids| => s[ids[k]]))
    case Objects(s) =>
      assert |s| == v.Length();
      Objects(seq(|ids|, k requires 0 <= k < |ids| => s[ids[k]]))
  }
}
