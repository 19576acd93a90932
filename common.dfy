/** Vocabulary shared by every component: an optional value, the fixed-width
    integer types of the source, and the order-preserving filter that Rust's
    `Vec::retain` performs. */
module Common {

  datatype Option<T> = None | Some(value: T)

  const U32_MAX: int := 0xFFFF_FFFF

  /** Rust's `u8`. */
  type u8 = x: int | 0 <= x < 0x100
  /** Rust's `u32`. */
  type u32 = x: int | 0 <= x < 0x1_0000_0000
  /** Rust's `i32`. */
  type i32 = x: int | -0x8000_0000 <= x < 0x8000_0000

  /** The elements of `s` for which `keep` holds, in their original order:
      what `Vec::retain(keep)` leaves in the vector. */
  function Filter<T>(s: seq<T>, keep: T -> bool): (r: seq<T>)
    ensures |r| <= |s|
    ensures forall x :: x in r ==> x in s && keep(x)
    decreases |s|
  {
    if s == [] then []
    else Filter(s[..|s| - 1], keep) + (if keep(s[|s| - 1]) then [s[|s| - 1]] else [])
  }

  /** Nothing that satisfies `keep` is lost. */
  lemma {:induction false} FilterKeeps<T>(s: seq<T>, keep: T -> bool, x: T)
    requires x in s && keep(x)
    ensures x in Filter(s, keep)
    decreases |s|
  {
    var last := s[|s| - 1];
    if x != last {
      assert s == s[..|s| - 1] + [last];
      FilterKeeps(s[..|s| - 1], keep, x);
    }
  }

  /** Filtering distributes over concatenation, so it keeps relative order. */
  lemma {:induction false} FilterAppend<T>(a: seq<T>, b: seq<T>, keep: T -> bool)
    ensures Filter(a + b, keep) == Filter(a, keep) + Filter(b, keep)
    decreases |b|
  {
    if b == [] {
      assert a + b == a;
    } else {
      assert (a + b)[..|a + b| - 1] == a + b[..|b| - 1];
      FilterAppend(a, b[..|b| - 1], keep);
    }
  }

  /** A filter changes nothing exactly when every element is kept. */
  lemma FilterUnchanged<T>(s: seq<T>, keep: T -> bool)
    ensures Filter(s, keep) == s <==> forall x :: x in s ==> keep(x)
  {
    if forall x :: x in s ==> keep(x) {
      FilterKeepsAll(s, keep);
    }
  }

  /** When every element is kept, the filter is the identity. */
  lemma {:induction false} FilterKeepsAll<T>(s: seq<T>, keep: T -> bool)
    requires forall x :: x in s ==> keep(x)
    ensures Filter(s, keep) == s
    decreases |s|
  {
    if s != [] {
      var init := s[..|s| - 1];
      assert s == init + [s[|s| - 1]];
      assert forall x :: x in init ==> x in s;
      FilterKeepsAll(init, keep);
    }
  }

  /** A filter shortens the sequence exactly when it drops something. */
  lemma {:induction false} FilterShrinks<T>(s: seq<T>, keep: T -> bool)
    ensures |Filter(s, keep)| < |s| <==> exists x :: x in s && !keep(x)
    decreases |s|
  {
    if s != [] {
      var init, last := s[..|s| - 1], s[|s| - 1];
      assert s == init + [last];
      FilterShrinks(init, keep);
      if exists x :: x in init && !keep(x) {
        var x :| x in init && !keep(x);
        assert x in s;
      }
      if exists x :: x in s && !keep(x) {
        var x :| x in s && !keep(x);
        assert x in init || x == last;
      }
    }
  }
}
