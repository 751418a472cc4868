/**
 * The key codec of `Perms` (src/perm.rs): a permission key may hold any
 * character, but in a stored field name `.` is a path separator and `$` marks
 * an operator. `encode` writes `$` as `$d` and `.` as `$p`, so an encoded name
 * never contains `.`; it still starts with `$` when the key starts with `$` or
 * `.`. `decode` is a two-state scanner that undoes it.
 *
 * Both directions are specified by functions that recurse on the LAST
 * character, so that they follow the left-to-right loops of the source
 * exactly: `Escaped(k)` is what `encode` has written after reading `k`, and
 * `Scan(s)` is the scanner's state after reading `s`.
 */
module Codec {

  /** What `encode` writes for one character of a key. */
  function EscapeChar(c: char): (e: string)
    ensures c == '$' || c == '.' ==> |e| == 2 && e[0] == '$'
    ensures c != '$' && c != '.' ==> e == [c]
  {
    match c
    case '$' => "$d"
    case '.' => "$p"
    case _ => [c]
  }

  /** True of the two characters the storage layer reserves. */
  predicate IsReserved(c: char) {
    c == '$' || c == '.'
  }

  /** The escape codes `decode` recognises after a `$`. */
  predicate IsEscapeCode(c: char) {
    c == 'd' || c == 'p'
  }

  /** The number of reserved characters in `k`. */
  function ReservedCount(k: string): (n: nat)
    ensures n <= |k|
  {
    if k == [] then 0
    else ReservedCount(k[..|k| - 1]) + (if IsReserved(k[|k| - 1]) then 1 else 0)
  }

  /**
   * The field name `encode` produces for key `k`: one character longer than
   * `k` per reserved character.
   */
  function Escaped(k: string): (f: string)
    ensures |f| == |k| + ReservedCount(k)
  {
    if k == [] then []
    else Escaped(k[..|k| - 1]) + EscapeChar(k[|k| - 1])
  }

  /** Encodes a permission key into a storage field name (perm.rs `encode`). */
  method Encode(s: string) returns (out: string)
    ensures out == Escaped(s)
  {
    out := "";
    var i := 0;
    while i < |s|
      invariant 0 <= i <= |s|
      invariant out == Escaped(s[..i])
    {
      var c := s[i];
      if c == '$' {
        out := out + "$d";
      } else if c == '.' {
        out := out + "$p";
      } else {
        out := out + [c];
      }
      assert s[..i + 1][..i] == s[..i];
      i := i + 1;
    }
    assert s[..|s|] == s;
  }

  /**
   * The state of `decode`'s scanner: `Normal` and `Pending` are the two values
   * of its `op` flag ("an escape is pending") together with what it has written
   * so far; `Panicked` is the panic on an unknown escape code.
   */
  datatype ScanState = Normal(out: string) | Pending(out: string) | Panicked(code: char)

  /** One iteration of `decode`'s loop. The `$` arm is tried first. */
  function Step(st: ScanState, c: char): (st': ScanState)
    ensures st.Panicked? ==> st' == st
    ensures !st.Panicked? && c == '$' ==> st' == Pending(st.out)
  {
    match st
    case Panicked(_) => st
    case Normal(out) =>
      if c == '$' then Pending(out) else Normal(out + [c])
    case Pending(out) =>
      if c == '$' then Pending(out)
      else if c == 'd' then Normal(out + "$")
      else if c == 'p' then Normal(out + ".")
      else Panicked(c)
  }

  /** The scanner's state after reading all of `s`, starting in `Normal("")`. */
  function Scan(s: string): (st: ScanState)
    ensures !st.Panicked? ==> |st.out| <= |s|
    ensures st.Pending? ==> |st.out| < |s|
  {
    if s == [] then Normal([]) else Step(Scan(s[..|s| - 1]), s[|s| - 1])
  }

  /** `decode` returns (rather than panics) on `s`. */
  predicate Decodable(s: string) {
    !Scan(s).Panicked?
  }

  /** The key `decode` returns for field name `s`. */
  function Unescaped(s: string): (k: string)
    requires Decodable(s)
    ensures |k| <= |s|
  {
    Scan(s).out
  }

  /**
   * The strict grammar of encoded field names: no `.`, and every `$` is
   * immediately followed by `d` or `p`.
   */
  predicate WellFormed(f: string) {
    && (forall i :: 0 <= i < |f| ==> f[i] != '.')
    && (forall i :: 0 <= i < |f| && f[i] == '$' ==> i + 1 < |f| && IsEscapeCode(f[i + 1]))
  }

  /** Decodes a storage field name back into a permission key (perm.rs `decode`). */
  method Decode(s: string) returns (out: string)
    requires Decodable(s)
    ensures out == Unescaped(s)
  {
    out := "";
    var op := false;
    var i := 0;
    while i < |s|
      invariant 0 <= i <= |s|
      invariant Scan(s[..i]) == if op then Pending(out) else Normal(out)
    {
      var c := s[i];
      assert s[..i + 1][..i] == s[..i];
      if c == '$' {
        op := true;
      } else if op {
        if c == 'd' {
          out := out + "$";
        } else if c == 'p' {
          out := out + ".";
        } else {
          PanicIsFinal(s, i + 1);
          assert false;
        }
        op := false;
      } else {
        out := out + [c];
      }
      i := i + 1;
    }
    assert s[..|s|] == s;
  }

  /** Once the scanner has panicked on a prefix, it has panicked on the whole input. */
  lemma {:induction false} PanicIsFinal(s: string, n: nat)
    requires n <= |s|
    ensures Scan(s[..n]).Panicked? ==> Scan(s).Panicked?
    decreases |s| - n
  {
    if n < |s| {
      assert s[..n + 1][..n] == s[..n];
      PanicIsFinal(s, n + 1);
    } else {
      assert s[..n] == s;
    }
  }

  /** `Escaped` is a homomorphism: keys may be encoded piecewise. */
  lemma {:induction false} EscapedAppend(a: string, b: string)
    ensures Escaped(a + b) == Escaped(a) + Escaped(b)
    decreases |b|
  {
    if b == [] {
      assert a + b == a;
    } else {
      var b' := b[..|b| - 1];
      assert (a + b)[..|a + b| - 1] == a + b';
      assert (a + b)[|a + b| - 1] == b[|b| - 1];
      EscapedAppend(a, b');
    }
  }

  /** Characters other than `$` and `.` pass through unchanged and in order. */
  lemma {:induction false} EscapedPassThrough(k: string)
    requires forall i :: 0 <= i < |k| ==> !IsReserved(k[i])
    ensures Escaped(k) == k
  {
    if k != [] {
      var k' := k[..|k| - 1];
      EscapedPassThrough(k');
      assert k' + [k[|k| - 1]] == k;
    }
  }

  /** Reading `Escaped(k)` leaves the scanner in `Normal(k)`. */
  lemma {:induction false} ScanEscaped(k: string)
    ensures Scan(Escaped(k)) == Normal(k)
  {
    if k != [] {
      var k', c := k[..|k| - 1], k[|k| - 1];
      var p := Escaped(k');
      ScanEscaped(k');
      assert k' + [c] == k;
      assert Escaped(k) == p + EscapeChar(c);
      ScanEscapeChar(p, k', c);
    }
  }

  /** From `Normal(u)`, reading the escape of `c` writes `c`. */
  lemma ScanEscapeChar(p: string, u: string, c: char)
    requires Scan(p) == Normal(u)
    ensures Scan(p + EscapeChar(c)) == Normal(u + [c])
  {
    if IsReserved(c) {
      var x := if c == '$' then 'd' else 'p';
      var q := p + ['$'];
      assert q[..|p|] == p;
      assert Scan(q) == Pending(u);
      assert p + EscapeChar(c) == q + [x];
      assert (q + [x])[..|q|] == q;
      assert Scan(q + [x]) == Step(Pending(u), x);
    } else {
      assert (p + [c])[..|p|] == p;
      assert Scan(p + [c]) == Step(Normal(u), c);
    }
  }

  /** Round trip: `decode(encode(k)) == k` for every key, and it never panics. */
  lemma RoundTrip(k: string)
    ensures Decodable(Escaped(k)) && Unescaped(Escaped(k)) == k
  {
    ScanEscaped(k);
  }

  /** `encode` is injective. */
  lemma EscapedInjective(a: string, b: string)
    ensures Escaped(a) == Escaped(b) ==> a == b
  {
    RoundTrip(a);
    RoundTrip(b);
  }

  /** Well-formedness is kept by concatenation. */
  lemma WellFormedAppend(x: string, y: string)
    requires WellFormed(x) && WellFormed(y)
    ensures WellFormed(x + y)
  {
    var z := x + y;
    forall i | 0 <= i < |z|
      ensures z[i] != '.' && (z[i] == '$' ==> i + 1 < |z| && IsEscapeCode(z[i + 1]))
    {
      if i < |x| {
        assert z[i] == x[i];
        if x[i] == '$' {
          assert z[i + 1] == x[i + 1];
        }
      } else {
        assert z[i] == y[i - |x|];
        if y[i - |x|] == '$' {
          assert z[i + 1] == y[i - |x| + 1];
        }
      }
    }
  }

  /**
   * Encoded output contains no `.`, and every `$` in it is followed by `d` or
   * `p`, so `decode` never reaches its panic on it.
   */
  lemma {:induction false} EscapedWellFormed(k: string)
    ensures WellFormed(Escaped(k))
  {
    if k != [] {
      var k', c := k[..|k| - 1], k[|k| - 1];
      EscapedWellFormed(k');
      var e := EscapeChar(c);
      assert WellFormed(e) by {
        if IsReserved(c) {
          assert e[0] == '$' && IsEscapeCode(e[1]);
        }
      }
      WellFormedAppend(Escaped(k'), e);
    }
  }

  /**
   * Scanning any string with no `.` whose every non-final `$` is followed by
   * `d` or `p` does not panic, and re-encoding what it has written gives back
   * the input (less a trailing `$` still pending).
   */
  lemma {:induction false} ScanNearlyWellFormed(f: string)
    requires forall i :: 0 <= i < |f| ==> f[i] != '.'
    requires forall i :: 0 <= i < |f| - 1 && f[i] == '$' ==> IsEscapeCode(f[i + 1])
    ensures !Scan(f).Panicked?
    ensures Scan(f).Pending? <==> |f| > 0 && f[|f| - 1] == '$'
    ensures Scan(f).Normal? ==> Escaped(Scan(f).out) == f
    ensures Scan(f).Pending? ==> Escaped(Scan(f).out) + "$" == f
  {
    if f != [] {
      var p, c := f[..|f| - 1], f[|f| - 1];
      assert p + [c] == f;
      ScanNearlyWellFormed(p);
      var st := Scan(p);
      var u := st.out;
      assert Scan(f) == Step(st, c);
      if st.Pending? {
        assert f[|f| - 2] == '$';
        EscapeCodeStep(p, c, u);
      } else if c == '$' {
        assert Scan(f) == Pending(u);
      } else {
        assert Scan(f) == Normal(u + [c]);
        EscapedPush(u, c);
      }
    }
  }

  /** Encoding one more character appends its escape. */
  lemma EscapedPush(u: string, x: char)
    ensures Escaped(u + [x]) == Escaped(u) + EscapeChar(x)
  {
    assert (u + [x])[..|u|] == u;
  }

  /**
   * An escape code completing a pending `$`: the decoded character re-encodes
   * to exactly that `$` and code.
   */
  lemma EscapeCodeStep(p: string, c: char, u: string)
    requires IsEscapeCode(c) && Scan(p) == Pending(u) && Escaped(u) + "$" == p
    ensures Scan(p + [c]).Normal? && Escaped(Scan(p + [c]).out) == p + [c]
  {
    var x := if c == 'd' then '$' else '.';
    assert (p + [c])[..|p|] == p;
    assert Scan(p + [c]) == Normal(u + [x]);
    EscapedPush(u, x);
    assert EscapeChar(x) == ['$', c] by {
      if c == 'd' { assert EscapeChar('$') == "$d"; } else { assert EscapeChar('.') == "$p"; }
    }
    var e := Escaped(u);
    assert e + ['$'] == p;
    assert e + ['$', c] == p + [c];
  }

  /**
   * On the strict grammar, `decode` does not panic and is the exact inverse of
   * `encode`: every well-formed field name is the encoding of its decoding.
   */
  lemma WellFormedInverse(f: string)
    requires WellFormed(f)
    ensures Decodable(f) && Escaped(Unescaped(f)) == f
  {
    ScanNearlyWellFormed(f);
  }

  /** What the scanner's state says about the input read so far. */
  lemma {:induction false} ScanShape(s: string)
    ensures !Scan(s).Panicked? <==>
      forall i :: 0 <= i < |s| - 1 && s[i] == '$' ==> (s[i + 1] == '$' || IsEscapeCode(s[i + 1]))
    ensures Scan(s).Pending? <==> |s| > 0 && s[|s| - 1] == '$' && !Scan(s).Panicked?
  {
    if s != [] {
      var p, c := s[..|s| - 1], s[|s| - 1];
      ScanShape(p);
      assert forall i :: 0 <= i < |p| ==> p[i] == s[i];
      if Scan(p).Panicked? {
        var i :| 0 <= i < |p| - 1 && p[i] == '$' && !(p[i + 1] == '$' || IsEscapeCode(p[i + 1]));
        assert s[i] == '$' && !(s[i + 1] == '$' || IsEscapeCode(s[i + 1]));
      }
    }
  }

  /**
   * `decode` panics exactly when some `$` is followed by a character other
   * than `$`, `d` or `p`. A `$` after a `$` re-arms the escape, and a trailing
   * `$` is dropped, rather than panicking.
   */
  lemma DecodableExactly(s: string)
    ensures Decodable(s) <==> forall i :: 0 <= i < |s| - 1 && s[i] == '$' ==> (s[i + 1] == '$' || IsEscapeCode(s[i + 1]))
  {
    ScanShape(s);
  }

  /** The two quirks of `decode`, and its panic, on concrete inputs. */
  lemma DecodeQuirks()
    ensures Decodable("$$d") && Unescaped("$$d") == "$"
    ensures Decodable("a$") && Unescaped("a$") == "a"
    ensures !Decodable("$x")
  {
    assert "$"[..0] == "" && Scan("$") == Pending("");
    assert "$$"[..1] == "$" && Scan("$$") == Pending("");
    assert "$$d"[..2] == "$$" && Scan("$$d") == Normal("$");
    assert "a"[..0] == "" && Scan("a") == Normal("a");
    assert "a$"[..1] == "a" && Scan("a$") == Pending("a");
    assert "$x"[..1] == "$" && Scan("$x") == Panicked('x');
  }

  /**
   * An encoded name starts with `$` exactly when the key starts with `$` or
   * `.`: escaping keeps `.` out of field names, not a leading `$`.
   */
  lemma EscapedLeadingDollar(k: string)
    ensures (Escaped(k) != [] && Escaped(k)[0] == '$') <==> (k != [] && IsReserved(k[0]))
  {
    if k != [] {
      EscapedAppend([k[0]], k[1..]);
      assert [k[0]] + k[1..] == k;
      assert [k[0]][..0] == [];
    }
  }

  /**
   * Only the empty key encodes to the empty name, and only the key `_id`
   * encodes to the identity field's name.
   */
  lemma EscapedReservedNames(k: string)
    ensures Escaped(k) == [] <==> k == []
    ensures Escaped(k) == "_id" <==> k == "_id"
  {
    EscapedPassThrough("_id");
    EscapedInjective(k, "_id");
  }
}
