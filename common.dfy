/** Value types shared by the models of the repository's Rust and Python code. */
module Common {

  /** Rust's `Option<T>`, usable with `:-` the way Rust uses `?`. */
  datatype Option<+T> = None | Some(value: T) {

    predicate IsFailure() {
      None?
    }

    function PropagateFailure<U>(): Option<U>
      requires None?
    {
      None
    }

    function Extract(): T
      requires Some?
    {
      value
    }

    /** Rust's `unwrap_or`. */
    function UnwrapOr(default: T): T {
      match this
      case Some(v) => v
      case None => default
    }
  }

  /** Rust's fixed-width integers, kept as mathematical integers in range. */
  type u8 = x: int | 0 <= x < 0x100
  type u16 = x: int | 0 <= x < 0x1_0000
  type u32 = x: int | 0 <= x < 0x1_0000_0000
  type i32 = x: int | -0x8000_0000 <= x < 0x8000_0000

  const I32_MIN: int := -0x8000_0000
  const I32_MAX: int := 0x7FFF_FFFF

  /**
   * `s[i] <= s[j]`. Sortedness is stated through this predicate so that a
   * proof draws on it only at the pairs of positions it names.
   */
  ghost predicate InOrder(s: seq<int>, i: nat, j: nat)
    requires i < |s| && j < |s|
  {
    s[i] <= s[j]
  }

  ghost predicate Sorted(s: seq<int>) {
    forall i, j :: 0 <= i < j < |s| ==> InOrder(s, i, j)
  }

  lemma SortedAt(s: seq<int>, i: nat, j: nat)
    requires Sorted(s) && i <= j < |s|
    ensures s[i] <= s[j]
  {
    if i < j {
      assert InOrder(s, i, j);
    }
  }
}
