/**
  Small shared vocabulary: an Option type, sums and concatenations of
  sequences, absolute values and the decimal rendering used in node names.
*/
module Common {

  datatype Option<+T> = None | Some(value: T)

  /** Sum of a sequence of naturals, peeled from the back to match left-to-right loops. */
  function Sum(ws: seq<nat>): nat
  {
    if ws == [] then 0 else Sum(ws[..|ws| - 1]) + ws[|ws| - 1]
  }

  lemma {:induction false} SumAppend(ws: seq<nat>, w: nat)
    ensures Sum(ws + [w]) == Sum(ws) + w
  {
    assert (ws + [w])[..|ws + [w]| - 1] == ws;
  }

  /** Concatenation of a sequence of sequences, in order. */
  function Flatten<T>(xss: seq<seq<T>>): seq<T>
  {
    if xss == [] then [] else Flatten(xss[..|xss| - 1]) + xss[|xss| - 1]
  }

  lemma {:induction false} FlattenAppend<T>(xss: seq<seq<T>>, xs: seq<T>)
    ensures Flatten(xss + [xs]) == Flatten(xss) + xs
  {
    assert (xss + [xs])[..|xss + [xs]| - 1] == xss;
  }

  lemma {:induction false} FlattenPrepend<T>(xs: seq<T>, xss: seq<seq<T>>)
    ensures Flatten([xs] + xss) == xs + Flatten(xss)
    decreases |xss|
  {
    if xss == [] {
      assert [xs] + xss == [] + [xs];
      FlattenAppend([], xs);
    } else {
      var init, last := xss[..|xss| - 1], xss[|xss| - 1];
      assert [xs] + xss == ([xs] + init) + [last];
      FlattenAppend([xs] + init, last);
      FlattenPrepend(xs, init);
      FlattenAppend(init, last);
      assert xss == init + [last];
    }
  }

  /** Every element of a concatenation comes from one of its parts, and every part's elements are in it. */
  lemma {:induction false} FlattenMember<T>(xss: seq<seq<T>>, x: T)
    ensures x in Flatten(xss) <==> exists b | 0 <= b < |xss| :: x in xss[b]
    decreases |xss|
  {
    if xss != [] {
      var init, last := xss[..|xss| - 1], xss[|xss| - 1];
      FlattenMember(init, x);
      if exists b | 0 <= b < |xss| :: x in xss[b] {
        var b :| 0 <= b < |xss| && x in xss[b];
        if b < |init| {
          assert init[b] == xss[b];
        }
      }
    }
  }

  /** `less` holds between every earlier and every later element of xs. */
  predicate SortedBy<T>(xs: seq<T>, less: (T, T) -> bool)
  {
    forall i, j | 0 <= i < j < |xs| :: less(xs[i], xs[j])
  }

  /**
    A concatenation is sorted when each part is, and every element of an
    earlier part comes before every element of a later part.
  */
  lemma {:induction false} FlattenSorted<T>(xss: seq<seq<T>>, less: (T, T) -> bool)
    requires forall b | 0 <= b < |xss| :: SortedBy(xss[b], less)
    requires forall b1, b2, x, y | 0 <= b1 < b2 < |xss| && x in xss[b1] && y in xss[b2] :: less(x, y)
    ensures SortedBy(Flatten(xss), less)
    decreases |xss|
  {
    if xss != [] {
      var init, last := xss[..|xss| - 1], xss[|xss| - 1];
      forall b | 0 <= b < |init| ensures SortedBy(init[b], less) {
        assert init[b] == xss[b];
      }
      FlattenSorted(init, less);
      var front := Flatten(init);
      forall i, j | 0 <= i < |front| && 0 <= j < |last| ensures less(front[i], last[j]) {
        FlattenMember(init, front[i]);
        var b :| 0 <= b < |init| && front[i] in init[b];
        assert init[b] == xss[b];
      }
      var all := front + last;
      forall i, j | 0 <= i < j < |all| ensures less(all[i], all[j]) {
        if j < |front| {
          assert all[i] == front[i] && all[j] == front[j];
        } else if i < |front| {
          assert all[i] == front[i] && all[j] == last[j - |front|];
        } else {
          assert all[i] == last[i - |front|] && all[j] == last[j - |front|];
        }
      }
    }
  }

  function Abs(x: real): (r: real)
    ensures r >= 0.0 && (r == x || r == -x)
  {
    if x < 0.0 then -x else x
  }

  function DigitChar(d: nat): (c: char)
    requires d < 10
    ensures '0' <= c <= '9' && c as int - '0' as int == d
  {
    "0123456789"[d]
  }

  /**
    Decimal rendering of a natural number, as Python's f"{i}" gives it: no
    leading zero except for zero itself, and DecimalValue reads it back.
  */
  function NatToString(n: nat): (s: string)
    ensures |s| > 0
    ensures forall c | c in s :: '0' <= c <= '9'
    ensures s[0] == '0' <==> n == 0
    ensures n == 0 ==> s == "0"
    decreases n
  {
    if n < 10 then [DigitChar(n)] else NatToString(n / 10) + [DigitChar(n % 10)]
  }

  /** The number a string of decimal digits denotes, most significant digit first. */
  function DecimalValue(s: string): nat
    requires forall c | c in s :: '0' <= c <= '9'
  {
    if s == [] then 0
    else
      var init, last := s[..|s| - 1], s[|s| - 1];
      assert forall c | c in init :: c in s;
      assert last in s;
      DecimalValue(init) * 10 + (last as int - '0' as int)
  }

  /** The rendering reads back as the number it renders. */
  lemma {:induction false} NatToStringValue(n: nat)
    ensures DecimalValue(NatToString(n)) == n
    decreases n
  {
    var s := NatToString(n);
    if n >= 10 {
      NatToStringValue(n / 10);
      assert s[..|s| - 1] == NatToString(n / 10);
    }
  }

  /** Distinct numbers get distinct renderings, so node names are distinct. */
  lemma NatToStringInjective(a: nat, b: nat)
    ensures NatToString(a) == NatToString(b) ==> a == b
  {
    NatToStringValue(a);
    NatToStringValue(b);
  }

  /** The node name `<prefix>.<index>` the encoders emit. */
  function Label(prefix: string, i: nat): string
  {
    prefix + "." + NatToString(i)
  }

  /** Position |a| + x of a + b is position x of b. */
  lemma AppendAt<T>(a: seq<T>, b: seq<T>, x: nat)
    requires x < |b|
    ensures |a| + x < |a + b| && (a + b)[|a| + x] == b[x]
  {
  }

  /** Positions of a keep their element in a + b. */
  lemma AppendBefore<T>(a: seq<T>, b: seq<T>, i: nat)
    requires i < |a|
    ensures i < |a + b| && (a + b)[i] == a[i]
  {
  }

  lemma {:induction false} CardMono<T>(a: set<T>, b: set<T>)
    requires a <= b
    ensures |a| <= |b|
  {
    assert b == a + (b - a);
  }

  /** Every element of a flattened sequence comes from one of its blocks. */
  lemma FlattenAllMember<T>(xss: seq<seq<T>>)
    ensures forall x | x in Flatten(xss) :: exists b | 0 <= b < |xss| :: x in xss[b]
  {
    forall x | x in Flatten(xss) ensures exists b | 0 <= b < |xss| :: x in xss[b] {
      FlattenMember(xss, x);
    }
  }
}
