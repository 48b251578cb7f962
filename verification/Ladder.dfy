/** The Montgomery ladder, over any kind of point with a combined doubling and addition. */
module Ladder {
  import opened Words
  import opened Scalars
  import opened Groups

  /** The pair of points after the bits of k from top - 1 down to pos. */
  ghost function Climb<P>(step: (P, P) -> (P, P), p2: P, p3: P, k: nat, top: nat, pos: nat): (P, P)
    requires pos <= top
    decreases top - pos
  {
    if pos == top then (p2, p3)
    else
      var (a, b) := Climb(step, p2, p3, k, top, pos + 1);
      Rung(step, a, b, Bit(k, pos))
  }

  ghost function Rung<P>(step: (P, P) -> (P, P), a: P, b: P, bit: nat): (P, P) {
    if bit == 0 then step(a, b) else var (d, c) := step(b, a); (c, d)
  }

  /** The pair a swap flag hides. */
  ghost function Swapped<P>(p: (P, P), swap: int): (P, P) {
    if swap == 0 then p else (p.1, p.0)
  }

  /** Swapping by old flag xor new bit, then stepping, leaves the new bit as the pending swap. */
  lemma DeferredSwap<P>(step: (P, P) -> (P, P), seen: (P, P), held: (P, P), swap: int, bit: int)
    requires 0 <= swap <= 1 && 0 <= bit <= 1
    requires seen == Swapped(held, swap)
    ensures var (a, b) := Swapped(seen, (swap + bit) % 2);
            step(a, b) == Swapped(Rung(step, held.0, held.1, bit), bit)
  {
  }

  /** step(a, b) is doubling and differential addition: for points of q and of r, which differ by
      base either way, it gives points of 2q and of q + r. */
  ghost predicate Differential<P(!new), G(!new)>(g: Group<G>, base: G, point: (P, G) -> bool, step: (P, P) -> (P, P)) {
    forall a, b, q, r :: DifferentialAt(g, base, point, step, a, b, q, r)
  }

  ghost predicate DifferentialAt<P(!new), G(!new)>(g: Group<G>, base: G, point: (P, G) -> bool,
                                                   step: (P, P) -> (P, P), a: P, b: P, q: G, r: G) {
    point(a, q) && point(b, r) && (r == g.add(q, base) || q == g.add(r, base)) ==>
      point(step(a, b).0, g.add(q, q)) && point(step(a, b).1, g.add(q, r))
  }

  lemma {:induction false} ClimbMultiple<P(!new), G(!new)>(g: Group<G>, base: G, point: (P, G) -> bool, step: (P, P) -> (P, P),
                                               p2: P, p3: P, k: nat, top: nat, pos: nat)
    requires g.Abelian() && Differential(g, base, point, step)
    requires point(p2, g.zero) && point(p3, base)
    requires k < Pow2(top) && pos <= top
    ensures var (a, b) := Climb(step, p2, p3, k, top, pos);
            point(a, g.Times(Shift(k, pos), base)) && point(b, g.Times(Shift(k, pos) + 1, base))
    decreases top - pos
  {
    hide *;
    ClimbSteps(step, p2, p3, k, top, pos);
    if pos == top {
      ShiftSmall(k, top);
      g.TimesOne(base);
    } else {
      ClimbMultiple(g, base, point, step, p2, p3, k, top, pos + 1);
      var below := Climb(step, p2, p3, k, top, pos + 1);
      ShiftStep(k, pos);
      RungTimes(g, base, point, step, below.0, below.1, Shift(k, pos + 1), Bit(k, pos));
    }
  }

  lemma ClimbSteps<P>(step: (P, P) -> (P, P), p2: P, p3: P, k: nat, top: nat, pos: nat)
    requires pos <= top
    ensures pos == top ==> Climb(step, p2, p3, k, top, pos) == (p2, p3)
    ensures pos < top ==>
      var below := Climb(step, p2, p3, k, top, pos + 1);
      Climb(step, p2, p3, k, top, pos) == Rung(step, below.0, below.1, Bit(k, pos))
  {
  }

  lemma RungTimes<P(!new), G(!new)>(g: Group<G>, base: G, point: (P, G) -> bool, step: (P, P) -> (P, P),
                                    a: P, b: P, n: nat, bit: nat)
    requires g.Abelian() && Differential(g, base, point, step) && bit <= 1
    requires point(a, g.Times(n, base)) && point(b, g.Times(n + 1, base))
    ensures point(Rung(step, a, b, bit).0, g.Times(2 * n + bit, base))
    ensures point(Rung(step, a, b, bit).1, g.Times(2 * n + bit + 1, base))
  {
    hide *;
    g.TimesNext(n, base);
    RungMultiple(g, base, point, step, a, b, g.Times(n, base), g.Times(n + 1, base), bit);
    g.TimesAdd(n, n, base);
    g.TimesAdd(n, n + 1, base);
    g.TimesAdd(n + 1, n, base);
    g.TimesAdd(n + 1, n + 1, base);
  }

  lemma RungMultiple<P(!new), G(!new)>(g: Group<G>, base: G, point: (P, G) -> bool, step: (P, P) -> (P, P),
                                       a: P, b: P, q: G, r: G, bit: nat)
    requires Differential(g, base, point, step)
    requires point(a, q) && point(b, r) && r == g.add(q, base)
    ensures bit == 0 ==> point(Rung(step, a, b, bit).0, g.add(q, q)) && point(Rung(step, a, b, bit).1, g.add(q, r))
    ensures bit != 0 ==> point(Rung(step, a, b, bit).0, g.add(r, q)) && point(Rung(step, a, b, bit).1, g.add(r, r))
  {
    assert DifferentialAt(g, base, point, step, a, b, q, r);
    assert DifferentialAt(g, base, point, step, b, a, r, q);
  }
}
