/** Rows and the indexers of a table. Rows are opaque and never change; what an indexer says of a row is a
    function of the row, which may also be that it has no value or that the indexer fails. */
module TableSchema {
  import opened VecShapes

  type Byte = b: nat | b < 256
  type Bytes = seq<Byte>

  type Row = v: Value | v != Nil witness Object(0)

  datatype Keys = Failed | Missing | Values(vals: seq<Bytes>)
  datatype PrimaryKey = NoKey | Key(key: Bytes)

  datatype Index = Index(values: Row -> Keys, unique: bool, allowMissing: bool)

  /** `ordinary` and `bitmaps` are a table's secondary indexes in the order every write walks them. */
  datatype Schema = Schema(primaryKey: Row -> PrimaryKey, ordinary: seq<Index>, bitmaps: seq<Index>)

  function Suffixed(vals: seq<Bytes>, suffix: Bytes): (r: seq<Bytes>)
    ensures |r| == |vals| && forall i :: 0 <= i < |r| ==> r[i] == vals[i] + suffix
  {
    seq(|vals|, i requires 0 <= i < |vals| => vals[i] + suffix)
  }

  function ListOf(k: Keys): seq<Bytes>
  {
    if k.Values? then k.vals else []
  }

  /** Whether a row has the given value in an index. */
  predicate Has(ix: Index, row: Row, key: Bytes)
  {
    key in ListOf(ix.values(row))
  }
}
