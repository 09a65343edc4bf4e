/** Small helpers shared by the other modules. */
module Common {

  datatype Option<+T> = None | Some(value: T) {
    function GetOr(default: T): T {
      if Some? then value else default
    }
  }

  /** Bound of Go's `uint64`. */
  const U64: int := 0x1_0000_0000_0000_0000

  type Uint64 = x: nat | x < U64

  function Abs(x: int): nat { if x < 0 then -x else x }

  /**
    What may go wrong outside the program: refused statements, broken connections, errors of the node.
    Which calls fail is left open; `count` is the number of failures so far.
   */
  class Faults {
    ghost var count: nat

    constructor ()
      ensures count == 0
    {
      count := 0;
    }

    method Occurs() returns (failed: bool)
      modifies this
      ensures count == old(count) + if failed then 1 else 0
    {
      failed := *;
      if failed {
        count := count + 1;
      }
    }
  }

  /** `INSERT ... ON CONFLICT (key) DO NOTHING`. */
  function InsertNew<K, V>(table: map<K, V>, key: K, row: V): map<K, V> {
    if key in table then table else table[key := row]
  }

  function Get<K, V>(table: map<K, V>, key: K): Option<V> {
    if key in table then Some(table[key]) else None
  }

  /** SQL's `LOWER` on the ASCII text of an address. */
  function Lower(s: string): string {
    seq(|s|, i requires 0 <= i < |s| => LowerChar(s[i]))
  }

  function LowerChar(c: char): char {
    if 'A' <= c <= 'Z' then c - 'A' + 'a' else c
  }

  // ---- division -------------------------------------------------------------------------------

  /** Quotient and remainder are determined by the division identity. */
  lemma DivModUnique(a: int, k: int, q: int, r: int)
    requires k > 0 && 0 <= r < k && a == k * q + r
    ensures a / k == q && a % k == r
  {
    var q', r' := a / k, a % k;
    assert a == k * q' + r';
    if q > q' {
      Multiple(k, q - q');
    } else if q < q' {
      Multiple(k, q' - q);
    }
  }

  lemma Multiple(k: int, x: int)
    requires k > 0 && x > 0
    ensures k * x >= k
  {
  }

  lemma Regroup(a: int, b: int, q: int, r: int)
    ensures a * (b * q + r) == a * b * q + a * r
  {
  }

  lemma SmallerMultiple(a: nat, r: nat, b: nat)
    requires r < b
    ensures a * r + a <= a * b
  {
    assert a * (r + 1) <= a * b;
  }

  /** Dividing twice is dividing by the product. */
  lemma DivDiv(v: nat, a: nat, b: nat)
    requires a > 0 && b > 0
    ensures a * b > 0 && v / a / b == v / (a * b)
  {
    var q, r := v / a, v % a;
    Regroup(a, b, q / b, q % b);
    SmallerMultiple(a, q % b, b);
    assert q == b * (q / b) + q % b;
    DivModUnique(v, a * b, q / b, a * (q % b) + r);
  }

  // ---- block ranges ---------------------------------------------------------------------------

  /** End of the range that starts at `next`, computed on `uint64`. */
  function RangeEnd(next: nat, batch: nat, latest: nat): nat
    requires batch >= 1
  {
    var end := (next + batch - 1) % U64;
    if end > latest then latest else end
  }

  /** The range is a proper one exactly when `next + batch - 1` does not wrap around. */
  lemma RangeEndExact(next: nat, batch: nat, latest: nat)
    requires next <= latest < U64 && 1 <= batch < U64
    ensures next <= RangeEnd(next, batch, latest) <= latest && RangeEnd(next, batch, latest) < next + batch
       <==> next + batch - 1 < U64
  {
  }

  /** All ranges up to a head are proper exactly when `latest + batch` fits. */
  lemma AllRangesProper(batch: nat, latest: nat)
    requires latest < U64 && 1 <= batch < U64
    ensures (forall next: nat :: next <= latest ==> next <= RangeEnd(next, batch, latest)) <==> latest + batch <= U64
  {
    RangeEndExact(latest, batch, latest);
    if latest + batch <= U64 {
      forall next: nat | next <= latest
        ensures next <= RangeEnd(next, batch, latest)
      {
        RangeEndExact(next, batch, latest);
      }
    } else {
      assert !(latest <= RangeEnd(latest, batch, latest));
    }
  }

  /** A batch size near the bound makes a range end before it begins. */
  lemma WrappedRangeGoesBack()
    ensures RangeEnd(10, U64 - 1, 100) == 8
  {
  }

  /** Where the loop goes on after the `k`-th range, the head staying at `latest`. */
  function StartAfter(next: nat, batch: nat, latest: nat, k: nat): nat
    requires batch >= 1
  {
    if k == 0 then next else (RangeEnd(StartAfter(next, batch, latest, k - 1), batch, latest) + 1) % U64
  }

  /** Near the bound the loop can go round for ever: it starts at 1, at 2^63 + 1, at 1, ... and never passes the head. */
  lemma {:induction false} LoopCanCycle(k: nat)
    ensures StartAfter(1, U64 / 2, U64 - 2, k) == (if k % 2 == 0 then 1 else U64 / 2 + 1) <= U64 - 2
  {
    hide RangeEnd;
    if k > 0 {
      LoopCanCycle(k - 1);
      CycleRanges();
    }
  }

  lemma CycleRanges()
    ensures RangeEnd(1, U64 / 2, U64 - 2) == U64 / 2
    ensures RangeEnd(U64 / 2 + 1, U64 / 2, U64 - 2) == 0
  {
  }

  datatype Range = Range(from: nat, to: nat)

  /** Consecutive pieces of at most `batch` blocks that cover exactly `lo`, ..., `hi - 1`. */
  ghost predicate Tiles(ranges: seq<Range>, lo: nat, hi: nat, batch: nat) {
    if ranges == [] then lo == hi
    else
      var last := ranges[|ranges| - 1];
      && last.from <= last.to < last.from + batch
      && last.to + 1 == hi
      && Tiles(ranges[..|ranges| - 1], lo, last.from, batch)
  }

  lemma {:induction false} TilesBounds(ranges: seq<Range>, lo: nat, hi: nat, batch: nat)
    requires Tiles(ranges, lo, hi, batch)
    ensures lo <= hi && forall r <- ranges :: r.from <= r.to < r.from + batch && lo <= r.from && r.to < hi
  {
    if ranges != [] {
      TilesBounds(ranges[..|ranges| - 1], lo, ranges[|ranges| - 1].from, batch);
    }
  }
}
