/** Polynomials over GF(2): a sequence of coefficients, the highest degree first. */
module Gf2 {

  type Poly = seq<bool>

  function Zeros(n: nat): (p: Poly)
    ensures |p| == n
  {
    seq(n, _ => false)
  }

  function Xor(a: Poly, b: Poly): (p: Poly)
    requires |a| == |b|
    ensures |p| == |a| && forall i :: 0 <= i < |a| ==> p[i] == (a[i] != b[i])
  {
    seq(|a|, i requires 0 <= i < |a| => a[i] != b[i])
  }

  function Complement(a: Poly): (p: Poly)
    ensures |p| == |a| && forall i :: 0 <= i < |a| ==> p[i] == !a[i]
  {
    seq(|a|, i requires 0 <= i < |a| => !a[i])
  }

  /** One coefficient times a polynomial. */
  function Scale(c: bool, g: Poly): (p: Poly)
    ensures |p| == |g|
  {
    if c then g else Zeros(|g|)
  }

  /** Schoolbook multiplication. */
  function Times(q: Poly, g: Poly): (p: Poly)
    requires g != []
    ensures |p| == |q| + |g| - 1
  {
    if q == [] then Zeros(|g| - 1)
    else Xor(Scale(q[0], g) + Zeros(|q| - 1), [false] + Times(q[1..], g))
  }

  /** r is what is left of p after taking out a multiple of g: p = q * g + r with deg r < deg g. */
  ghost predicate IsRemainder(p: Poly, g: Poly, r: Poly)
    requires g != []
  {
    |r| == |g| - 1 <= |p| && exists q: Poly :: IsDivision(p, g, q, r)
  }

  ghost predicate IsDivision(p: Poly, g: Poly, q: Poly, r: Poly)
    requires g != []
  {
    |r| == |g| - 1 && |p| == |q| + |r| && p == Xor(Times(q, g), Zeros(|q|) + r)
  }

  /** Taking one multiple of g off the leading coefficient. */
  function Reduce(p: Poly, g: Poly): (p': Poly)
    requires 0 < |g| <= |p|
    ensures |p'| == |p| - 1
  {
    Xor(p, Scale(p[0], g) + Zeros(|p| - |g|))[1..]
  }

  lemma {:induction false} NothingToDivide(p: Poly, g: Poly, r: Poly)
    requires g != [] && IsDivision(p, g, [], r)
    ensures p == r
  {
    assert Zeros(0) + r == r;
  }

  lemma {:induction false} RemainderUnique(p: Poly, g: Poly, q: Poly, r: Poly, q': Poly, r': Poly)
    requires g != [] && g[0] && IsDivision(p, g, q, r) && IsDivision(p, g, q', r')
    ensures r == r'
    decreases |p|
  {
    if q == [] {
      NothingToDivide(p, g, r);
      NothingToDivide(p, g, r');
    } else {
      DivisionReduces(p, g, q, r);
      DivisionReduces(p, g, q', r');
      RemainderUnique(Reduce(p, g), g, q[1..], r, q'[1..], r');
    }
  }

  lemma {:induction false} ReducedCoefficient(p: Poly, g: Poly, q: Poly, r: Poly, i: nat)
    requires g != [] && g[0] && q != [] && |r| == |g| - 1 && |p| == |q| + |r|
    requires q[0] == p[0] && i < |p| - 1
    ensures Reduce(p, g)[i] == Xor(Times(q[1..], g), Zeros(|q| - 1) + r)[i]
       <==> p[i + 1] == Xor(Times(q, g), Zeros(|q|) + r)[i + 1]
  {
    var lead, rest := Scale(q[0], g) + Zeros(|q| - 1), Times(q[1..], g);
    var z := (Zeros(|q| - 1) + r)[i];
    assert (Zeros(|q|) + r)[i + 1] == z;
    TimesCoefficient(q, g, i);
    assert Reduce(p, g)[i] == (p[i + 1] != lead[i + 1]);
    assert Xor(rest, Zeros(|q| - 1) + r)[i] == (rest[i] != z);
    assert Xor(Times(q, g), Zeros(|q|) + r)[i + 1] == ((lead[i + 1] != rest[i]) != z);
  }

  lemma {:induction false} TimesCoefficient(q: Poly, g: Poly, i: nat)
    requires g != [] && q != [] && i < |q| + |g| - 2
    ensures Times(q, g)[i + 1] == ((Scale(q[0], g) + Zeros(|q| - 1))[i + 1] != Times(q[1..], g)[i])
  {
    var lead, rest := Scale(q[0], g) + Zeros(|q| - 1), Times(q[1..], g);
    var shifted := [false] + rest;
    assert Times(q, g) == Xor(lead, shifted);
    assert shifted[i + 1] == rest[i];
  }

  /** A division of p is one step of long division followed by a division of what is left. */
  lemma {:induction false} DivisionReduces(p: Poly, g: Poly, q: Poly, r: Poly)
    requires g != [] && g[0] && q != [] && IsDivision(p, g, q, r)
    ensures q[0] == p[0] && IsDivision(Reduce(p, g), g, q[1..], r)
  {
    var m := Xor(Times(q, g), Zeros(|q|) + r);
    var p', m' := Reduce(p, g), Xor(Times(q[1..], g), Zeros(|q| - 1) + r);
    assert m[0] == q[0];
    forall i | 0 <= i < |p'| ensures p'[i] == m'[i] {
      ReducedCoefficient(p, g, q, r, i);
    }
    assert p' == m';
  }

  lemma {:induction false} DivisionExtends(p: Poly, g: Poly, q: Poly, r: Poly)
    requires g != [] && g[0] && q != [] && |r| == |g| - 1 && |p| == |q| + |r| && q[0] == p[0]
    requires IsDivision(Reduce(p, g), g, q[1..], r)
    ensures IsDivision(p, g, q, r)
  {
    var m := Xor(Times(q, g), Zeros(|q|) + r);
    assert m[0] == q[0];
    forall j | 0 < j < |p| ensures p[j] == m[j] {
      ExtendedCoefficient(p, g, q, r, j - 1);
    }
    assert p == m;
  }

  lemma {:induction false} ExtendedCoefficient(p: Poly, g: Poly, q: Poly, r: Poly, i: nat)
    requires g != [] && g[0] && q != [] && |r| == |g| - 1 && |p| == |q| + |r| && q[0] == p[0]
    requires IsDivision(Reduce(p, g), g, q[1..], r) && i < |p| - 1
    ensures p[i + 1] == Xor(Times(q, g), Zeros(|q|) + r)[i + 1]
  {
    ReducedCoefficient(p, g, q, r, i);
  }

  /** Long division always produces the remainder. */
  function Rem(p: Poly, g: Poly): (r: Poly)
    requires g != [] && |p| >= |g| - 1
    ensures |r| == |g| - 1
    decreases |p|
  {
    if |p| == |g| - 1 then p else Rem(Reduce(p, g), g)
  }

  lemma {:induction false} RemDivides(p: Poly, g: Poly) returns (q: Poly)
    requires g != [] && g[0] && |p| >= |g| - 1
    ensures IsDivision(p, g, q, Rem(p, g))
    decreases |p|
  {
    if |p| == |g| - 1 {
      q := [];
      assert Zeros(0) + p == p;
    } else {
      var q' := RemDivides(Reduce(p, g), g);
      q := [p[0]] + q';
      assert q[1..] == q';
      DivisionExtends(p, g, q, Rem(p, g));
    }
  }

  lemma {:induction false} RemIsTheRemainder(p: Poly, g: Poly, r: Poly)
    requires g != [] && g[0] && |p| >= |g| - 1
    ensures IsRemainder(p, g, r) <==> r == Rem(p, g)
  {
    var q := RemDivides(p, g);
    if IsRemainder(p, g, r) {
      var q' :| IsDivision(p, g, q', r);
      RemainderUnique(p, g, q, Rem(p, g), q', r);
    }
  }

  // ----- the shift register that divides a message as it arrives

  /** One message coefficient enters the register at its high end. */
  function Clock(s: Poly, t: bool, g: Poly): (s': Poly)
    requires s != [] && |g| == |s| + 1
    ensures |s'| == |s|
  {
    Xor(s[1..] + [false], Scale(s[0] != t, g[1..]))
  }

  function Feed(s: Poly, m: Poly, g: Poly): (s': Poly)
    requires s != [] && |g| == |s| + 1
    ensures |s'| == |s|
    decreases |m|
  {
    if m == [] then s else Feed(Clock(s, m[0], g), m[1..], g)
  }

  /** The message times x^deg g, with the register's start value added to its leading coefficients. */
  function Preset(s: Poly, m: Poly): (p: Poly)
    ensures |p| == |s| + |m|
  {
    Xor(s + Zeros(|m|), m + Zeros(|s|))
  }

  lemma {:induction false} FeedIsRem(s: Poly, m: Poly, g: Poly)
    requires s != [] && |g| == |s| + 1 && g[0]
    ensures Feed(s, m, g) == Rem(Preset(s, m), g)
    decreases |m|
  {
    if m == [] {
      assert Preset(s, m) == s;
    } else {
      var s' := Clock(s, m[0], g);
      FeedIsRem(s', m[1..], g);
      ClockReduces(s, m, g);
    }
  }

  lemma {:induction false} ClockReduces(s: Poly, m: Poly, g: Poly)
    requires s != [] && |g| == |s| + 1 && g[0] && m != []
    ensures Reduce(Preset(s, m), g) == Preset(Clock(s, m[0], g), m[1..])
  {
    var p, s' := Preset(s, m), Clock(s, m[0], g);
    var sz, mz, lead := s + Zeros(|m|), m + Zeros(|s|), Scale(p[0], g) + Zeros(|p| - |g|);
    var p' := Preset(s', m[1..]);
    assert p[0] == (s[0] != m[0]);
    forall i | 0 <= i < |p'| ensures Reduce(p, g)[i] == p'[i] {
      assert Reduce(p, g)[i] == ((sz[i + 1] != mz[i + 1]) != lead[i + 1]);
      assert p'[i] == ((s' + Zeros(|m[1..]|))[i] != (m[1..] + Zeros(|s'|))[i]);
      assert mz[i + 1] == (m[1..] + Zeros(|s'|))[i];
      if i < |s| {
        assert s'[i] == ((s[1..] + [false])[i] != Scale(p[0], g[1..])[i]);
        assert lead[i + 1] == Scale(p[0], g)[i + 1] == Scale(p[0], g[1..])[i];
      } else {
        assert !lead[i + 1] && !sz[i + 1];
      }
    }
  }

  lemma {:induction false} FeedConcat(s: Poly, a: Poly, b: Poly, g: Poly)
    requires s != [] && |g| == |s| + 1
    ensures Feed(s, a + b, g) == Feed(Feed(s, a, g), b, g)
    decreases |a|
  {
    if a == [] {
      assert a + b == b;
    } else {
      assert (a + b)[1..] == a[1..] + b;
      FeedConcat(Clock(s, a[0], g), a[1..], b, g);
    }
  }

  lemma {:induction false} ClockInjective(s: Poly, s': Poly, t: bool, g: Poly)
    requires s != [] && |g| == |s| + 1 && |s'| == |s| && g[|s|]
    requires Clock(s, t, g) == Clock(s', t, g)
    ensures s == s'
  {
    var n := |s| - 1;
    assert Clock(s, t, g)[n] == (s[0] != t) && Clock(s', t, g)[n] == (s'[0] != t);
    forall i | 0 < i <= n ensures s[i] == s'[i] {
      assert Clock(s, t, g)[i - 1] == (s[i] != Scale(s[0] != t, g[1..])[i - 1]);
      assert Clock(s', t, g)[i - 1] == (s'[i] != Scale(s'[0] != t, g[1..])[i - 1]);
    }
  }

  /** Registers that differ stay different while the same message passes through them. */
  lemma {:induction false} FeedInjective(s: Poly, s': Poly, m: Poly, g: Poly)
    requires s != [] && |g| == |s| + 1 && |s'| == |s| && g[|s|]
    requires Feed(s, m, g) == Feed(s', m, g)
    ensures s == s'
    decreases |m|
  {
    if m != [] {
      FeedInjective(Clock(s, m[0], g), Clock(s', m[0], g), m[1..], g);
      ClockInjective(s, s', m[0], g);
    }
  }

  /** Up to deg g message coefficients may be added to the register before they are clocked. */
  lemma {:induction false} FeedAhead(s: Poly, u: Poly, g: Poly)
    requires s != [] && |g| == |s| + 1 && |u| <= |s|
    ensures Feed(s, u, g) == Feed(Xor(s, u + Zeros(|s| - |u|)), Zeros(|u|), g)
    decreases |u|
  {
    if u == [] {
      assert Xor(s, u + Zeros(|s|)) == s;
    } else {
      FeedAhead(Clock(s, u[0], g), u[1..], g);
      ClockAhead(s, u, g);
      assert Zeros(|u|)[1..] == Zeros(|u[1..]|) && !Zeros(|u|)[0];
    }
  }

  /** From a register of zeros, feeding a short message is starting from it. */
  lemma {:induction false} FeedFromZero(u: Poly, g: Poly)
    requires |g| > 1 && |u| < |g|
    ensures var n := |g| - 1; Feed(Zeros(n), u, g) == Feed(u + Zeros(n - |u|), Zeros(|u|), g)
  {
    var n := |g| - 1;
    FeedAhead(Zeros(n), u, g);
    XorWithZeros(u + Zeros(n - |u|));
  }

  lemma {:induction false} XorWithZeros(p: Poly)
    ensures Xor(Zeros(|p|), p) == p
  {
  }

  lemma {:induction false} ClockAhead(s: Poly, u: Poly, g: Poly)
    requires s != [] && |g| == |s| + 1 && 0 < |u| <= |s|
    ensures Clock(Xor(s, u + Zeros(|s| - |u|)), false, g)
         == Xor(Clock(s, u[0], g), u[1..] + Zeros(|s| - |u[1..]|))
  {
    var uz := u + Zeros(|s| - |u|);
    var x, s' := Xor(s, uz), Clock(s, u[0], g);
    var l, r := Clock(x, false, g), Xor(s', u[1..] + Zeros(|s| - |u[1..]|));
    assert x[0] == (s[0] != u[0]);
    var c := Scale(x[0], g[1..]);
    forall i | 0 <= i < |s| ensures l[i] == r[i] {
      assert l[i] == ((x[1..] + [false])[i] != c[i]);
      assert s'[i] == ((s[1..] + [false])[i] != c[i]);
      assert r[i] == (s'[i] != (u[1..] + Zeros(|s| - |u[1..]|))[i]);
      if i + 1 < |s| {
        assert x[i + 1] == (s[i + 1] != uz[i + 1]);
      }
    }
  }

  lemma {:induction false} WindowInjective(c: Poly, u: Poly, v: Poly, g: Poly)
    requires c != [] && |g| == |c| + 1 && g[|c|] && |u| == |v| <= |c|
    requires Feed(c, u, g) == Feed(c, v, g)
    ensures u == v
  {
    FeedAhead(c, u, g);
    FeedAhead(c, v, g);
    var uz, vz := u + Zeros(|c| - |u|), v + Zeros(|c| - |u|);
    FeedInjective(Xor(c, uz), Xor(c, vz), Zeros(|u|), g);
    forall i | 0 <= i < |u| ensures u[i] == v[i] {
      assert Xor(c, uz)[i] == (c[i] != uz[i]) && Xor(c, vz)[i] == (c[i] != vz[i]);
    }
  }

  lemma {:induction false} WindowThenTail(c: Poly, u: Poly, v: Poly, y: Poly, g: Poly)
    requires c != [] && |g| == |c| + 1 && g[|c|]
    requires |u| == |v| <= |c| && u != v
    ensures Feed(Feed(c, u, g), y, g) != Feed(Feed(c, v, g), y, g)
  {
    if Feed(Feed(c, u, g), y, g) == Feed(Feed(c, v, g), y, g) {
      FeedInjective(Feed(c, u, g), Feed(c, v, g), y, g);
      WindowInjective(c, u, v, g);
    }
  }

  lemma {:induction false} FeedThree(s: Poly, x: Poly, u: Poly, y: Poly, g: Poly)
    requires s != [] && |g| == |s| + 1
    ensures Feed(s, x + u + y, g) == Feed(Feed(Feed(s, x, g), u, g), y, g)
  {
    FeedConcat(s, x + u, y, g);
    FeedConcat(s, x, u, g);
  }

  /** A generator with a nonzero constant term detects every burst no longer than its degree. */
  lemma {:induction false} BurstDetected(s: Poly, a: Poly, b: Poly, i: nat, j: nat, g: Poly)
    requires s != [] && |g| == |s| + 1 && g[|s|]
    requires |a| == |b| && a != b && i <= j <= |a| && j - i <= |s|
    requires a[..i] == b[..i] && a[j..] == b[j..]
    ensures Feed(s, a, g) != Feed(s, b, g)
  {
    var x, u, v, y := a[..i], a[i..j], b[i..j], a[j..];
    assert a == x + u + y && b == x + v + y;
    FeedThree(s, x, u, y, g);
    FeedThree(s, x, v, y, g);
    WindowThenTail(Feed(s, x, g), u, v, y, g);
  }

  lemma {:induction false} ClockLinear(s: Poly, s': Poly, t: bool, t': bool, g: Poly)
    requires s != [] && |g| == |s| + 1 && |s'| == |s|
    ensures Clock(Xor(s, s'), t != t', g) == Xor(Clock(s, t, g), Clock(s', t', g))
  {
    var x := Xor(s, s');
    var l, r := Clock(x, t != t', g), Xor(Clock(s, t, g), Clock(s', t', g));
    forall i | 0 <= i < |s| ensures l[i] == r[i] {
      assert l[i] == ((x[1..] + [false])[i] != Scale(x[0] != (t != t'), g[1..])[i]);
      assert Clock(s, t, g)[i] == ((s[1..] + [false])[i] != Scale(s[0] != t, g[1..])[i]);
      assert Clock(s', t', g)[i] == ((s'[1..] + [false])[i] != Scale(s'[0] != t', g[1..])[i]);
      if i + 1 < |s| {
        assert x[i + 1] == (s[i + 1] != s'[i + 1]);
      }
    }
  }

  lemma {:induction false} FeedLinear(s: Poly, s': Poly, m: Poly, m': Poly, g: Poly)
    requires s != [] && |g| == |s| + 1 && |s'| == |s| && |m| == |m'|
    ensures Feed(Xor(s, s'), Xor(m, m'), g) == Xor(Feed(s, m, g), Feed(s', m', g))
    decreases |m|
  {
    if m != [] {
      ClockLinear(s, s', m[0], m'[0], g);
      assert Xor(m, m')[1..] == Xor(m[1..], m'[1..]);
      FeedLinear(Clock(s, m[0], g), Clock(s', m'[0], g), m[1..], m'[1..], g);
    }
  }
}
