/** Constants and small datatypes shared by the models of the kernel's components. */
module Machine {
  datatype Option<+T> = None | Some(value: T)

  const PAGE_SIZE: nat := 4096
  const WORD_LIMIT: nat := 0x1_0000_0000_0000_0000 // 2^64: one past the largest uint64_t

  /** A number cut to an int: its low 32 bits, as a signed number. */
  function IntArgument(n: nat): int {
    var low := n % 0x1_0000_0000;
    if low < 0x8000_0000 then low else low - 0x1_0000_0000
  }

  /** The integers i with lo <= i < hi. */
  function Interval(lo: int, hi: int): (s: set<int>)
    ensures forall i :: i in s <==> lo <= i < hi
    ensures lo <= hi ==> |s| == hi - lo
    decreases hi - lo
  {
    if hi <= lo then {} else Interval(lo, hi - 1) + {hi - 1}
  }

  /** No element comes twice. */
  ghost predicate Distinct<T>(s: seq<T>) {
    forall i, j :: 0 <= i < j < |s| ==> s[i] != s[j]
  }

  function Members<T(!new)>(s: seq<T>): (m: set<T>)
    ensures forall x :: x in m <==> x in s
  {
    set x | x in s
  }

  lemma {:induction false} DistinctMembers<T(!new)>(s: seq<T>)
    requires Distinct(s)
    ensures |Members(s)| == |s|
  {
    if s != [] {
      var t := s[..|s| - 1];
      DistinctMembers(t);
      assert s == t + [s[|s| - 1]];
      assert Members(s) == Members(t) + {s[|s| - 1]};
    }
  }

  /** Different numbers of an interval are at most as many as it holds. */
  lemma DistinctWithin(s: seq<int>, lo: int, hi: int)
    requires Distinct(s) && lo <= hi && forall x :: x in s ==> lo <= x < hi
    ensures |s| <= hi - lo
  {
    DistinctMembers(s);
    assert Interval(lo, hi) == Members(s) + (Interval(lo, hi) - Members(s));
  }

  function InsertAt<T>(s: seq<T>, k: nat, x: T): (r: seq<T>)
    requires k <= |s|
    ensures |r| == |s| + 1
    ensures forall i :: 0 <= i < |r| ==> r[i] == if i < k then s[i] else if i == k then x else s[i - 1]
  {
    s[..k] + [x] + s[k..]
  }

  lemma Assoc<T>(a: seq<T>, b: seq<T>, c: seq<T>)
    ensures a + (b + c) == (a + b) + c
  {
  }

  function Min(a: nat, b: nat): nat {
    if a < b then a else b
  }

  /** a with the elements from at on overwritten by text. */
  function Splice<T>(a: seq<T>, at: nat, text: seq<T>): (r: seq<T>)
    requires at + |text| <= |a|
    ensures |r| == |a|
  {
    a[..at] + text + a[at + |text|..]
  }

  lemma SpliceTwice<T>(a: seq<T>, at: nat, t: seq<T>, u: seq<T>)
    requires at + |t| + |u| <= |a|
    ensures Splice(Splice(a, at, t), at + |t|, u) == Splice(a, at, t + u)
  {
    var b := Splice(a, at, t);
    assert b[..at + |t|] == a[..at] + t;
    assert b[at + |t| + |u|..] == a[at + |t| + |u|..];
    assert a[..at] + (t + u) == a[..at] + t + u;
  }
}
