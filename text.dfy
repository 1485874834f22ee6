/** Text helpers with the semantics of the Python string operations the
    wrapper relies on: `str.split` with a one-character separator,
    `str.join`, `str.count` of one character and the substring test `in`. */
module Text {

  /** Python's `sep.join(parts)`: the parts with `sep` between neighbours. */
  function Join(parts: seq<string>, sep: string): string
  {
    if |parts| == 0 then ""
    else if |parts| == 1 then parts[0]
    else parts[0] + sep + Join(parts[1..], sep)
  }

  /** Python's `s.split(c)`: the maximal separator-free pieces of `s`, in
      order; there is always at least one piece (`"".split(c) == [""]`). */
  function Split(s: string, c: char): (r: seq<string>)
    ensures |r| >= 1
    decreases |s|
  {
    if s == [] then [""]
    else
      var rest := Split(s[1..], c);
      if s[0] == c then [""] + rest
      else [[s[0]] + rest[0]] + rest[1..]
  }

  /** Joining the pieces again restores the text: nothing is lost or
      duplicated by splitting. */
  lemma {:induction false} JoinSplit(s: string, c: char)
    ensures Join(Split(s, c), [c]) == s
    decreases |s|
  {
    if s != [] {
      var rest := Split(s[1..], c);
      JoinSplit(s[1..], c);
      assert s == [s[0]] + s[1..];
      SplitCons(s[0], s[1..], c);
      if s[0] == c {
        JoinCons("", rest, [c]);
      } else {
        JoinExtendHead(s[0], rest, [c]);
      }
    }
  }

  /** One unfolding of `Join` in front of a non-empty list. */
  lemma JoinCons(p: string, ps: seq<string>, sep: string)
    requires |ps| >= 1
    ensures Join([p] + ps, sep) == p + sep + Join(ps, sep)
  {
  }

  /** Lengthening the first part lengthens the joined text in front. */
  lemma JoinExtendHead(x: char, ps: seq<string>, sep: string)
    requires |ps| >= 1
    ensures Join([[x] + ps[0]] + ps[1..], sep) == [x] + Join(ps, sep)
  {
  }

  /** Python's `s.count(c)` for a one-character `c`. */
  function Count(s: string, c: char): nat
  {
    if s == [] then 0
    else (if s[0] == c then 1 else 0) + Count(s[1..], c)
  }

  /** `sub` occurs in `s` starting at index `i`. */
  predicate OccursAt(s: string, sub: string, i: nat)
  {
    i + |sub| <= |s| && s[i..i + |sub|] == sub
  }

  /** Python's `sub in s`. */
  function Contains(s: string, sub: string): (r: bool)
    ensures r <==> exists i: nat :: OccursAt(s, sub, i)
    decreases |s|
  {
    if |sub| > |s| then false
    else if s[..|sub|] == sub then
      assert OccursAt(s, sub, 0);
      true
    else
      var r := Contains(s[1..], sub);
      if r then
        var i: nat :| OccursAt(s[1..], sub, i);
        assert s[1..][i..i + |sub|] == s[i + 1..i + 1 + |sub|];
        assert OccursAt(s, sub, i + 1);
        r
      else
        forall i: nat | OccursAt(s, sub, i)
          ensures false
        {
          if i > 0 {
            assert s[1..][i - 1..i - 1 + |sub|] == s[i..i + |sub|];
            assert OccursAt(s[1..], sub, i - 1);
          }
        }
        r
  }

  /** All pieces but the last. */
  function Init<T>(s: seq<T>): seq<T>
    requires |s| > 0
  {
    s[..|s| - 1]
  }

  /** Concatenation groups either way. */
  lemma Associative<T>(a: seq<T>, b: seq<T>, c: seq<T>)
    ensures a + b + c == a + (b + c)
  {
  }

  /** The last piece. */
  function Last<T>(s: seq<T>): T
    requires |s| > 0
  {
    s[|s| - 1]
  }

  /** Splitting yields one piece more than there are separators. */
  lemma {:induction false} SplitCount(s: string, c: char)
    ensures |Split(s, c)| == Count(s, c) + 1
    decreases |s|
  {
    if s != [] {
      SplitCount(s[1..], c);
    }
  }

  /** Splitting text without the separator gives that text back whole. */
  lemma {:induction false} SplitNoSeparator(s: string, c: char)
    requires c !in s
    ensures Split(s, c) == [s]
    decreases |s|
  {
    if s != [] {
      SplitNoSeparator(s[1..], c);
      assert [s[0]] + s[1..] == s;
    }
  }

  /** Joining separator-free pieces and splitting again gives the pieces back:
      `split` is a left inverse of `join`. */
  lemma {:induction false} SplitJoin(parts: seq<string>, c: char)
    requires |parts| >= 1
    requires forall i :: 0 <= i < |parts| ==> c !in parts[i]
    ensures Split(Join(parts, [c]), c) == parts
    decreases |parts|
  {
    if |parts| == 1 {
      SplitNoSeparator(parts[0], c);
    } else {
      var rest := parts[1..];
      SplitJoin(rest, c);
      var j := Join(rest, [c]);
      assert Join(parts, [c]) == parts[0] + ([c] + j);
      SplitPrefix(parts[0], [c] + j, c);
      SplitCons(c, j, c);
      calc {
        Split(Join(parts, [c]), c);
        Split(parts[0] + ([c] + j), c);
        [parts[0] + Split([c] + j, c)[0]] + Split([c] + j, c)[1..];
        { assert Split([c] + j, c) == [""] + rest; }
        [parts[0] + ""] + rest;
        { assert parts[0] + "" == parts[0]; }
        [parts[0]] + rest;
        parts;
      }
    }
  }

  /** No piece contains the separator. */
  lemma {:induction false} SplitSeparatorFree(s: string, c: char)
    ensures forall i :: 0 <= i < |Split(s, c)| ==> c !in Split(s, c)[i]
    decreases |s|
  {
    if s != [] {
      SplitSeparatorFree(s[1..], c);
      var rest := Split(s[1..], c);
      if s[0] != c {
        assert forall i :: 1 <= i < |Split(s, c)| ==> Split(s, c)[i] == rest[i];
      } else {
        assert forall i :: 1 <= i < |Split(s, c)| ==> Split(s, c)[i] == rest[i - 1];
      }
    }
  }

  /** Splitting a concatenation: the complete pieces of `a` stay as they are
      and its unterminated tail is continued by `b`. This is what lets a
      line buffer carry a partial line from one write to the next. */
  lemma {:induction false} SplitConcat(a: string, b: string, c: char)
    ensures Split(a + b, c) == Init(Split(a, c)) + Split(Last(Split(a, c)) + b, c)
    decreases |a|
  {
    if a == [] {
      assert a + b == b;
      assert "" + b == b;
    } else {
      var x, a' := a[0], a[1..];
      SplitConcat(a', b, c);
      assert a == [x] + a';
      assert a + b == [x] + (a' + b);
      SplitConcatStep(x, a', b, c);
    }
  }

  /** The inductive step of `SplitConcat`: from the fact for `a'` to the fact
      for `[x] + a'`. */
  lemma SplitConcatStep(x: char, a': string, b: string, c: char)
    requires Split(a' + b, c) == Init(Split(a', c)) + Split(Last(Split(a', c)) + b, c)
    ensures Split([x] + a' + b, c) == Init(Split([x] + a', c)) + Split(Last(Split([x] + a', c)) + b, c)
  {
    var rest := Split(a', c);
    assert [x] + a' + b == [x] + (a' + b);
    SplitCons(x, a', c);
    if x == c {
      StepSeparator(x, a', b, c);
    } else if |rest| == 1 {
      StepSinglePiece(x, a', b, c);
    } else {
      StepManyPieces(x, a', b, c);
    }
  }

  lemma StepSeparator(x: char, a': string, b: string, c: char)
    requires x == c
    requires Split(a' + b, c) == Init(Split(a', c)) + Split(Last(Split(a', c)) + b, c)
    ensures var rest := Split(a', c);
      Split([x] + (a' + b), c) == Init([""] + rest) + Split(Last(rest) + b, c)
  {
  }

  lemma StepSinglePiece(x: char, a': string, b: string, c: char)
    requires x != c && |Split(a', c)| == 1
    requires Split(a' + b, c) == Init(Split(a', c)) + Split(Last(Split(a', c)) + b, c)
    ensures var rest := Split(a', c);
      Split([x] + (a' + b), c) == Init([[x] + rest[0]]) + Split(Last([[x] + rest[0]]) + b, c)
  {
    var rest := Split(a', c);
    var p := rest[0];
    var q := [x] + p;
    SinglePiece(rest, Split(Last(rest) + b, c), Split(a' + b, c));
    SplitCons(x, a' + b, c);
    SplitCons(x, p + b, c);
    SingleFront(q, b, [x], p);
    assert Split([x] + (a' + b), c) == Split(q + b, c);
  }

  /** With a single piece, dropping the last piece leaves nothing. */
  lemma SinglePiece<T>(rest: seq<T>, tail: seq<T>, t: seq<T>)
    requires |rest| == 1 && t == Init(rest) + tail
    ensures t == tail && Last(rest) == rest[0]
  {
  }

  /** The one-piece list around `q = y + p`, continued by `b`. */
  lemma SingleFront<T>(q: seq<T>, b: seq<T>, y: seq<T>, p: seq<T>)
    requires q == y + p
    ensures Init([q]) == [] && Last([q]) + b == q + b == y + (p + b)
  {
  }

  lemma StepManyPieces(x: char, a': string, b: string, c: char)
    requires x != c && |Split(a', c)| > 1
    requires Split(a' + b, c) == Init(Split(a', c)) + Split(Last(Split(a', c)) + b, c)
    ensures var rest := Split(a', c);
      Split([x] + (a' + b), c) ==
        Init([[x] + rest[0]] + rest[1..]) + Split(Last(rest) + b, c)
  {
  }

  /** Putting a new piece in front commutes with dropping the last piece. */
  lemma PrependPiece<T>(h: T, rest: seq<T>, tail: seq<T>, t: seq<T>)
    requires |rest| >= 1 && t == Init(rest) + tail
    ensures [h] + t == Init([h] + rest) + tail
  {
  }

  /** Replacing the first piece commutes with dropping the last piece, when
      there are at least two. */
  lemma ReplaceHead<T>(h: T, rest: seq<T>, tail: seq<T>, t: seq<T>)
    requires |rest| > 1 && t == Init(rest) + tail
    ensures t[0] == rest[0]
    ensures [h] + t[1..] == Init([h] + rest[1..]) + tail
  {
  }

  /** One unfolding of `Split` on text with a known first character. */
  lemma SplitCons(x: char, t: string, c: char)
    ensures Split([x] + t, c) ==
      if x == c then [""] + Split(t, c)
      else [[x] + Split(t, c)[0]] + Split(t, c)[1..]
  {
  }

  /** Text ending in the separator leaves an empty tail. */
  lemma SplitEndsWithSeparator(s: string, c: char)
    requires |s| > 0 && s[|s| - 1] == c
    ensures Last(Split(s, c)) == ""
  {
    var s0 := s[..|s| - 1];
    assert s0 + [c] == s;
    SplitConcat(s0, [c], c);
    SplitSeparatorFree(s0, c);
    var tail := Last(Split(s0, c));
    SplitPrefix(tail, [c], c);
    SplitCons(c, [], c);
  }

  /** Prefixing separator-free text only lengthens the first piece. */
  lemma {:induction false} SplitPrefix(p: string, s: string, c: char)
    requires c !in p
    ensures Split(p + s, c) == [p + Split(s, c)[0]] + Split(s, c)[1..]
    decreases |p|
  {
    if p == [] {
      assert p + s == s;
      assert p + Split(s, c)[0] == Split(s, c)[0];
    } else {
      SplitPrefix(p[1..], s, c);
      assert (p + s)[1..] == p[1..] + s;
      assert (p + s)[0] == p[0];
      assert [p[0]] + (p[1..] + Split(s, c)[0]) == p + Split(s, c)[0];
    }
  }
}
