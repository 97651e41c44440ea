/** Text and ordering facts the recommendation engine relies on: Python's
    `str.join`, substring occurrence (Python's `in` on two strings), and
    order-preserving subsequences of a fixed list. */
module Text {

  /** Sum of the lengths of `parts`. */
  function TotalLength(parts: seq<string>): nat
  {
    if parts == [] then 0 else |parts[0]| + TotalLength(parts[1..])
  }

  /** `sep.join(parts)`: the parts in order, with `sep` between neighbours and
      nowhere else. */
  function Join(parts: seq<string>, sep: string): (r: string)
    ensures parts == [] ==> r == ""
    ensures parts != [] ==> |r| + |sep| == TotalLength(parts) + |parts| * |sep|
    ensures parts != [] ==> parts[0] <= r
  {
    if parts == [] then ""
    else if |parts| == 1 then parts[0]
    else parts[0] + sep + Join(parts[1..], sep)
  }

  /** `sub in s` for two strings: `sub` occurs in `s` at some position. */
  predicate Occurs(sub: string, s: string)
  {
    exists k :: 0 <= k <= |s| && sub <= s[k..]
  }

  lemma OccursAt(sub: string, s: string, k: nat)
    requires k <= |s| && sub <= s[k..]
    ensures Occurs(sub, s)
  {
  }

  lemma OccursSelf(s: string)
    ensures Occurs(s, s)
  {
    OccursAt(s, s, 0);
  }

  lemma OccursInLeft(x: string, a: string, b: string)
    requires Occurs(x, a)
    ensures Occurs(x, a + b)
  {
    var k :| 0 <= k <= |a| && x <= a[k..];
    assert (a + b)[k..] == a[k..] + b;
    OccursAt(x, a + b, k);
  }

  lemma OccursInRight(x: string, a: string, b: string)
    requires Occurs(x, b)
    ensures Occurs(x, a + b)
  {
    var k :| 0 <= k <= |b| && x <= b[k..];
    assert (a + b)[|a| + k..] == b[k..];
    OccursAt(x, a + b, |a| + k);
  }

  /** Occurrence is transitive: a piece of a piece of `c` is a piece of `c`. */
  lemma OccursTransitive(a: string, b: string, c: string)
    requires Occurs(a, b) && Occurs(b, c)
    ensures Occurs(a, c)
  {
    var i :| 0 <= i <= |b| && a <= b[i..];
    var j :| 0 <= j <= |c| && b <= c[j..];
    assert a <= c[j + i..] by {
      forall n | 0 <= n < |a| ensures a[n] == c[j + i + n] {
        assert a[n] == b[i + n];
        assert b[i + n] == c[j..][i + n];
      }
    }
    OccursAt(a, c, j + i);
  }

  /** Every character of an occurring piece is a character of the whole. */
  lemma OccursCharacter(sub: string, s: string, ch: char)
    requires Occurs(sub, s) && ch in sub
    ensures ch in s
  {
    var k :| 0 <= k <= |s| && sub <= s[k..];
    var n :| 0 <= n < |sub| && sub[n] == ch;
    assert s[k..][n] == ch;
  }

  /** Every character of `s` is in the Arabic block (U+0600 and above) or is
      one of the characters of `extra`. */
  predicate ArabicOr(s: string, extra: string)
  {
    forall i :: 0 <= i < |s| ==> s[i] >= '\U{600}' || s[i] in extra
  }

  /** A character below the Arabic block that is not in `extra` is not in `s`. */
  lemma NotInAlphabet(s: string, extra: string, ch: char)
    requires ArabicOr(s, extra) && ch < '\U{600}' && ch !in extra
    ensures ch !in s
  {
  }

  /** Each joined part occurs in the joined string. */
  lemma {:induction false} JoinContainsPart(parts: seq<string>, sep: string, x: string)
    requires x in parts
    ensures Occurs(x, Join(parts, sep))
  {
    if |parts| == 1 {
      OccursAt(x, Join(parts, sep), 0);
    } else if x == parts[0] {
      OccursAt(x, parts[0], 0);
      OccursInLeft(x, parts[0], sep + Join(parts[1..], sep));
      assert parts[0] + sep + Join(parts[1..], sep) == parts[0] + (sep + Join(parts[1..], sep));
    } else {
      JoinContainsPart(parts[1..], sep, x);
      OccursInRight(x, parts[0] + sep, Join(parts[1..], sep));
    }
  }

  /** A character of a joined string comes from the separator or from a part. */
  lemma {:induction false} JoinCharacterSource(parts: seq<string>, sep: string, ch: char)
    requires ch in Join(parts, sep)
    ensures ch in sep || exists p :: p in parts && ch in p
  {
    if |parts| == 1 {
      assert parts[0] in parts;
    } else {
      assert parts[0] in parts;
      if ch !in parts[0] && ch !in sep {
        JoinCharacterSource(parts[1..], sep, ch);
        var p :| (p in parts[1..] && ch in p) || ch in sep;
        assert p in parts[1..] ==> p in parts;
      }
    }
  }

  /** `xs` keeps some of the elements of `ys`, in the order `ys` lists them. */
  predicate Subsequence<T(==)>(xs: seq<T>, ys: seq<T>)
    decreases |ys|
  {
    if xs == [] then true
    else if ys == [] then false
    else (xs[0] == ys[0] && Subsequence(xs[1..], ys[1..])) || Subsequence(xs, ys[1..])
  }

  /** No element of `ys` is listed twice. */
  predicate Distinct<T(==)>(ys: seq<T>)
  {
    forall i, j :: 0 <= i < j < |ys| ==> ys[i] != ys[j]
  }

  /** Choosing whether to keep the head of `ys` preserves being a subsequence. */
  lemma SubsequenceKeepOrSkip<T>(keep: bool, y: T, xs: seq<T>, ys: seq<T>)
    requires Subsequence(xs, ys)
    ensures Subsequence((if keep then [y] else []) + xs, [y] + ys)
  {
    if keep {
      assert ([y] + xs)[1..] == xs;
    } else {
      assert [] + xs == xs;
      assert ([y] + ys)[1..] == ys;
    }
  }

  lemma {:induction false} SubsequenceMembers<T>(xs: seq<T>, ys: seq<T>, x: T)
    requires Subsequence(xs, ys) && x in xs
    ensures x in ys
    decreases |ys|
  {
    assert ys != [];
    if xs[0] == ys[0] && Subsequence(xs[1..], ys[1..]) {
      if x != xs[0] {
        SubsequenceMembers(xs[1..], ys[1..], x);
      }
    } else {
      SubsequenceMembers(xs, ys[1..], x);
    }
  }

  /** Over a list without repetitions, a subsequence is determined by which
      elements it keeps: the order is fixed by the list. */
  lemma {:induction false} SubsequenceDeterminedByMembers<T>(xs: seq<T>, zs: seq<T>, ys: seq<T>)
    requires Distinct(ys)
    requires Subsequence(xs, ys) && Subsequence(zs, ys)
    requires forall x :: x in xs <==> x in zs
    ensures xs == zs
    decreases |ys|
  {
    if ys == [] {
      assert xs == [] && zs == [];
    } else {
      var y, rest := ys[0], ys[1..];
      assert Distinct(rest) by {
        forall i, j | 0 <= i < j < |rest| ensures rest[i] != rest[j] {
          assert rest[i] == ys[i + 1] && rest[j] == ys[j + 1];
        }
      }
      assert y !in rest by {
        forall n | 0 <= n < |rest| ensures rest[n] != y {
          assert rest[n] == ys[n + 1];
        }
      }
      if y in xs {
        HeadIsKept(xs, ys);
        HeadIsKept(zs, ys);
        forall x ensures x in xs[1..] <==> x in zs[1..] {
          if x in xs[1..] { SubsequenceMembers(xs[1..], rest, x); }
          if x in zs[1..] { SubsequenceMembers(zs[1..], rest, x); }
          assert x in xs <==> x == y || x in xs[1..];
          assert x in zs <==> x == y || x in zs[1..];
        }
        SubsequenceDeterminedByMembers(xs[1..], zs[1..], rest);
      } else {
        if xs != [] { assert xs[0] != y; }
        if zs != [] { assert zs[0] != y; }
        SubsequenceDeterminedByMembers(xs, zs, rest);
      }
    }
  }

  /** If a subsequence of a repetition-free list keeps its head, the head
      comes first and the rest is a subsequence of the tail. */
  lemma HeadIsKept<T>(xs: seq<T>, ys: seq<T>)
    requires Distinct(ys) && ys != []
    requires Subsequence(xs, ys) && ys[0] in xs
    ensures xs[0] == ys[0] && Subsequence(xs[1..], ys[1..])
  {
    if !(xs[0] == ys[0] && Subsequence(xs[1..], ys[1..])) {
      SubsequenceMembers(xs, ys[1..], ys[0]);
    }
  }

  /** A message made of a prefix and either a fallback text (no parts) or the
      joined parts. */
  function Compose(prefix: string, parts: seq<string>, sep: string, fallback: string): string
  {
    prefix + (if parts == [] then fallback else Join(parts, sep))
  }

  /** A message composed of three parts spells them out with two separators. */
  lemma ComposeThree(prefix: string, a: string, b: string, c: string, sep: string, fallback: string)
    ensures Compose(prefix, [a, b, c], sep, fallback) == prefix + a + sep + b + sep + c
  {
    assert [a, b, c][1..] == [b, c];
    assert [b, c][1..] == [c];
    assert Join([c], sep) == c;
    assert Join([b, c], sep) == b + sep + c;
    assert Join([a, b, c], sep) == a + sep + (b + sep + c);
  }

  /** Where a character of a composed message can come from. */
  lemma ComposedCharacterSource(prefix: string, parts: seq<string>, sep: string, fallback: string, ch: char)
    requires ch in Compose(prefix, parts, sep, fallback)
    ensures ch in prefix || (parts == [] && ch in fallback) || ch in sep
            || exists p :: p in parts && ch in p
  {
    if ch !in prefix && parts != [] {
      JoinCharacterSource(parts, sep, ch);
    }
  }

  /** Suppose the parts are chosen from `all`, and `ch` occurs in `reason` but
      in no other candidate, nor in the prefix, separator or fallback. Then a
      marker containing `ch` and occurring in `reason` occurs in the composed
      message exactly when `reason` was chosen. */
  lemma MarkerOccursIffChosen(prefix: string, parts: seq<string>, sep: string, fallback: string,
                              all: seq<string>, reason: string, marker: string, ch: char)
    requires Subsequence(parts, all)
    requires forall p :: p in all && ch in p ==> p == reason
    requires ch !in prefix && ch !in sep && ch !in fallback
    requires Occurs(marker, reason) && ch in marker
    ensures Occurs(marker, Compose(prefix, parts, sep, fallback)) <==> reason in parts
  {
    var msg := Compose(prefix, parts, sep, fallback);
    if reason in parts {
      JoinContainsPart(parts, sep, reason);
      OccursInRight(reason, prefix, Join(parts, sep));
      OccursTransitive(marker, reason, msg);
    }
    if Occurs(marker, msg) {
      OccursCharacter(marker, msg, ch);
      ComposedCharacterSource(prefix, parts, sep, fallback, ch);
      var p :| p in parts && ch in p;
      SubsequenceMembers(parts, all, p);
    }
  }

  /** If `ch` is in the fallback text and in nothing else the message can be
      made of, the fallback occurs exactly when no part was chosen. */
  lemma FallbackOccursIffNothingChosen(prefix: string, parts: seq<string>, sep: string, fallback: string,
                                       all: seq<string>, ch: char)
    requires Subsequence(parts, all)
    requires forall p :: p in all ==> ch !in p
    requires ch !in prefix && ch !in sep && ch in fallback
    ensures Occurs(fallback, Compose(prefix, parts, sep, fallback)) <==> parts == []
  {
    var msg := Compose(prefix, parts, sep, fallback);
    if parts == [] {
      OccursSelf(fallback);
      OccursInRight(fallback, prefix, fallback);
    }
    if Occurs(fallback, msg) && parts != [] {
      OccursCharacter(fallback, msg, ch);
      ComposedCharacterSource(prefix, parts, sep, fallback, ch);
      var p :| p in parts && ch in p;
      SubsequenceMembers(parts, all, p);
    }
  }
}
