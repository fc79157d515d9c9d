/** The pagination dots under the carousel.

    The bar has room for `MaxAllowed(w)` dots on a viewport `w` pixels wide.
    With more slides than that, the slides are cut into groups of that many and
    the dots show the group holding the active slide: as many dots as that
    group has slides, the active one at the slide's place inside the group. */
module Pagination {
  import opened Navigation
  import opened Wrappers

  datatype Dots = Dots(activeDotIndex: int, dotsLength: int)

  const DotWidth: int := 10
  /** Padding on each side of a dot. */
  const DotPadding: int := 8
  /** Both horizontal margins of a dot together (2 * 2.5). */
  const DotMargins: int := 5
  /** Width taken by the two arrows (or their placeholders) and the gaps. */
  const ReservedWidth: int := 120 + 20
  /** Horizontal room one dot needs: 31 pixels. */
  const DotRoom: int := DotWidth + DotPadding * 2 + DotMargins

  function Min(a: int, b: int): int { if a < b then a else b }

  /** `Math.floor((w - 120 - 20) / 31)` for an integer width: the largest
      number of dots whose room fits in what the arrows leave free. */
  function MaxAllowed(w: int): (m: int)
    ensures m * DotRoom <= w - ReservedWidth < (m + 1) * DotRoom
  {
    (w - ReservedWidth) / DotRoom
  }

  /** `renderBottom`'s dot computation. `activeDotIndex` is taken modulo the
      capped length before that length shrinks for the last partial group.
      None where there are no slides (the source divides by zero) or where
      `maxAllowed` is not positive (a viewport narrower than 171 pixels). */
  function PaginationDots(w: int, n: nat, i: int): (r: Option<Dots>)
    requires InRange(i, n)
    ensures r.Some? <==> MaxAllowed(w) > 0 && n > 0
    ensures r.Some? ==>
              0 <= r.value.activeDotIndex < r.value.dotsLength <= Min(MaxAllowed(w), n)
  {
    var m := MaxAllowed(w);
    if m <= 0 || n == 0 then None
    else
      var capped := if m < n then m else n;
      var activeDotIndex := i % capped;
      var dotsLength := if n % m != 0 && i >= n - n % m then n % m else capped;
      DotsInRange(n, m, i);
      Some(Dots(activeDotIndex, dotsLength))
  }

  /** The fact behind PaginationDots' range: the active dot index, taken
      before the last group shrinks, still lies inside the shrunk group. */
  lemma DotsInRange(n: nat, m: int, i: int)
    requires m > 0 && 0 <= i < n
    ensures var capped := Min(m, n);
            var len := if n % m != 0 && i >= n - n % m then n % m else capped;
            0 <= i % capped < len <= capped
  {
    if n % m != 0 && i >= n - n % m {
      if m < n {
        LastGroupPosition(n, m, i);
      } else {
        DivModUnique(n, m, 0, n);
        DivModUnique(i, n, 0, i);
      }
    }
  }

  /** `a <= b` scales by a positive factor. */
  lemma MulLe(a: int, b: int, m: int)
    requires m > 0 && a <= b
    ensures a * m <= b * m
  {
    assert b * m - a * m == (b - a) * m;
  }

  /** Division with remainder is unique. */
  lemma DivModUnique(x: int, m: int, q: int, r: int)
    requires m > 0 && 0 <= r < m && x == q * m + r
    ensures x / m == q && x % m == r
  {
    var p := x / m;
    assert x == p * m + x % m;
    if p > q {
      MulLe(q + 1, p, m);
    } else if p < q {
      MulLe(p + 1, q, m);
    }
  }

  /** A slide in the last, partial group of `m` sits at its offset from the
      group's start, which is below the group's size `n % m`. */
  lemma LastGroupPosition(n: nat, m: int, i: int)
    requires m > 0 && n - n % m <= i < n
    ensures i / m == n / m && i % m == i - (n - n % m) < n % m
  {
    DivModUnique(n, m, n / m, n % m);
    DivModUnique(i, m, n / m, i - (n - n % m));
  }

  /** The dots show the group of `MaxAllowed(w)` consecutive slides that holds
      the active slide: the count is that group's size and the active dot is
      the slide's place in it. In particular the last group, when partial,
      shows `n % m` dots. */
  lemma DotsShowActiveGroup(w: int, n: nat, i: int)
    requires InRange(i, n) && MaxAllowed(w) > 0 && n > 0
    ensures var m := MaxAllowed(w);
            var g := i / m;
            var d := PaginationDots(w, n, i).value;
            d.activeDotIndex == i - g * m && d.dotsLength == Min(m, n - g * m) &&
            (n % m != 0 && i >= n - n % m ==> d.dotsLength == n % m)
  {
    var m := MaxAllowed(w);
    var g := i / m;
    DivModUnique(n, m, n / m, n % m);
    DivModUnique(i, m, g, i % m);
    if n <= m {
      DivModUnique(i, m, 0, i);
      DivModUnique(i, n, 0, i);
    } else if n % m != 0 && i >= n - n % m {
      LastGroupPosition(n, m, i);
    } else {
      // a full group: g < n / m, so the group ends at (g + 1) * m <= n
      if g >= n / m {
        MulLe(n / m, g, m);
      }
      MulLe(g + 1, n / m, m);
      assert (g + 1) * m == g * m + m;
    }
  }
}
