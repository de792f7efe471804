/**
 * The order in which Polars sorts string columns: strings by code point
 * (equivalently, by their UTF-8 bytes), and several key columns
 * lexicographically, first column first.
 */
module Order {

  /**
   * `a` sorts no later than `b`, compared one code point at a time: it agrees
   * with the textbook definition `LexLe`.
   */
  predicate StrLe(a: string, b: string)
    ensures StrLe(a, b) <==> LexLe(a, b)
  {
    LexUnfold(a, b);
    |a| == 0 || (|b| > 0 && (a[0] < b[0] || (a[0] == b[0] && StrLe(a[1..], b[1..]))))
  }

  /** Lexicographic order: `a` is a prefix of `b`, or at the first difference `a` has the smaller code point. */
  predicate LexLe(a: string, b: string) {
    a <= b || exists i | 0 <= i < |a| && i < |b| :: a[..i] == b[..i] && a[i] < b[i]
  }

  /** `LexLe` decided by the first code points and, when they agree, by the rest. */
  lemma LexUnfold(a: string, b: string)
    ensures LexLe(a, b) <==>
      |a| == 0 || (|b| > 0 && (a[0] < b[0] || (a[0] == b[0] && LexLe(a[1..], b[1..]))))
  {
    if |a| > 0 && |b| > 0 {
      if LexLe(a, b) {
        LexHead(a, b);
      }
      if a[0] < b[0] || (a[0] == b[0] && LexLe(a[1..], b[1..])) {
        LexTail(a, b);
      }
    }
  }

  /** A first difference at position `i > 0` is one at `i - 1` of the tails. */
  lemma LexHead(a: string, b: string)
    requires |a| > 0 && |b| > 0 && LexLe(a, b)
    ensures a[0] < b[0] || (a[0] == b[0] && LexLe(a[1..], b[1..]))
  {
    if a <= b {
      assert a[1..] <= b[1..];
    } else {
      var i :| 0 <= i < |a| && i < |b| && a[..i] == b[..i] && a[i] < b[i];
      if i > 0 {
        assert a[0] == a[..i][0] == b[..i][0] == b[0];
        assert a[1..][..i - 1] == a[1..i] == b[1..i] == b[1..][..i - 1];
      }
    }
  }

  /** Conversely, a smaller first code point, or an equal one and ordered tails, orders the strings. */
  lemma LexTail(a: string, b: string)
    requires |a| > 0 && |b| > 0
    requires a[0] < b[0] || (a[0] == b[0] && LexLe(a[1..], b[1..]))
    ensures LexLe(a, b)
  {
    if a[0] < b[0] {
      assert a[..0] == b[..0];
    } else if a[1..] <= b[1..] {
      assert a == [a[0]] + a[1..] && b == [b[0]] + b[1..];
    } else {
      var j :| 0 <= j < |a[1..]| && j < |b[1..]| && a[1..][..j] == b[1..][..j] && a[1..][j] < b[1..][j];
      assert a[..j + 1] == [a[0]] + a[1..][..j];
      assert b[..j + 1] == [b[0]] + b[1..][..j];
    }
  }

  /** Lexicographic order on tuples of strings; a key that is a prefix of another sorts first. */
  predicate KeyLe(a: seq<string>, b: seq<string>)
    ensures a <= b ==> KeyLe(a, b)
    ensures KeyLe(a, b) && |a| > 0 && |b| > 0 ==> StrLe(a[0], b[0])
  {
    |a| == 0 || (|b| > 0 && ((StrLe(a[0], b[0]) && a[0] != b[0]) || (a[0] == b[0] && KeyLe(a[1..], b[1..]))))
  }

  lemma {:induction false} StrLeTotal(a: string, b: string)
    ensures StrLe(a, b) || StrLe(b, a)
  {
    if |a| > 0 && |b| > 0 && a[0] == b[0] {
      StrLeTotal(a[1..], b[1..]);
    }
  }

  lemma {:induction false} StrLeTransitive(a: string, b: string, c: string)
    requires StrLe(a, b) && StrLe(b, c)
    ensures StrLe(a, c)
  {
    if |a| > 0 && a[0] == b[0] && b[0] == c[0] {
      StrLeTransitive(a[1..], b[1..], c[1..]);
    }
  }

  lemma {:induction false} StrLeAntisymmetric(a: string, b: string)
    requires StrLe(a, b) && StrLe(b, a)
    ensures a == b
  {
    if |a| > 0 {
      StrLeAntisymmetric(a[1..], b[1..]);
      assert a == [a[0]] + a[1..] && b == [b[0]] + b[1..];
    }
  }

  lemma {:induction false} KeyLeTotal(a: seq<string>, b: seq<string>)
    ensures KeyLe(a, b) || KeyLe(b, a)
  {
    if |a| > 0 && |b| > 0 {
      if a[0] == b[0] {
        KeyLeTotal(a[1..], b[1..]);
      } else {
        StrLeTotal(a[0], b[0]);
      }
    }
  }

  lemma {:induction false} KeyLeTransitive(a: seq<string>, b: seq<string>, c: seq<string>)
    requires KeyLe(a, b) && KeyLe(b, c)
    ensures KeyLe(a, c)
  {
    if |a| > 0 {
      if a[0] == b[0] && b[0] == c[0] {
        KeyLeTransitive(a[1..], b[1..], c[1..]);
      } else if a[0] != b[0] && b[0] != c[0] {
        StrLeTransitive(a[0], b[0], c[0]);
        if a[0] == c[0] {
          StrLeAntisymmetric(a[0], b[0]);
        }
      }
    }
  }

  lemma {:induction false} KeyLeAntisymmetric(a: seq<string>, b: seq<string>)
    requires KeyLe(a, b) && KeyLe(b, a)
    ensures a == b
  {
    if |a| > 0 {
      if a[0] != b[0] {
        StrLeAntisymmetric(a[0], b[0]);
      }
      KeyLeAntisymmetric(a[1..], b[1..]);
      assert a == [a[0]] + a[1..] && b == [b[0]] + b[1..];
    }
  }
}
