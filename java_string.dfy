/** The parts of `java.lang.String` the benchmark driver relies on:
    `startsWith`, repeated appends, and `split` around a single
    non-metacharacter, whose result drops trailing empty strings. */
module JavaString {

  /** `s` appended `n` times. */
  function Repeat(s: string, n: nat): string
    decreases n
  {
    if n == 0 then "" else s + Repeat(s, n - 1)
  }

  lemma {:induction false} RepeatSnoc(s: string, n: nat)
    ensures Repeat(s, n + 1) == Repeat(s, n) + s
    decreases n
  {
    if n > 0 {
      RepeatSnoc(s, n - 1);
    }
  }

  /** Appending one more copy to a text ending in `n` copies. */
  lemma AppendRepeat(prefix: string, s: string, n: nat)
    ensures prefix + Repeat(s, n) + s == prefix + Repeat(s, n + 1)
  {
    RepeatSnoc(s, n);
  }

  lemma {:induction false} RepeatLength(s: string, n: nat)
    ensures |Repeat(s, n)| == n * |s|
    decreases n
  {
    if n > 0 {
      RepeatLength(s, n - 1);
    }
  }

  /** `s.startsWith(prefix)`. */
  predicate StartsWith(s: string, prefix: string)
  {
    |prefix| <= |s| && s[..|prefix|] == prefix
  }

  /** The position of the first `c` in `s`. */
  function IndexOf(s: string, c: char): (i: nat)
    requires c in s
    ensures i < |s| && s[i] == c && c !in s[..i]
  {
    if s[0] == c then 0 else 1 + IndexOf(s[1..], c)
  }

  /** All the pieces of `s` between occurrences of `c`, empty pieces included;
      there is always one more piece than there are separators. */
  function SplitOn(s: string, c: char): (parts: seq<string>)
    ensures |parts| >= 1
    decreases |s|
  {
    if c !in s then [s]
    else
      var i := IndexOf(s, c);
      [s[..i]] + SplitOn(s[i + 1..], c)
  }

  /** The pieces put back together with `c` between them. */
  function Join(parts: seq<string>, c: char): string
    requires |parts| >= 1
  {
    if |parts| == 1 then parts[0] else parts[0] + [c] + Join(parts[1..], c)
  }

  /** Splitting loses nothing: joining the pieces again gives back `s`, and no
      piece contains the separator. */
  lemma {:induction false} JoinSplitOn(s: string, c: char)
    ensures Join(SplitOn(s, c), c) == s
    ensures forall k :: 0 <= k < |SplitOn(s, c)| ==> c !in SplitOn(s, c)[k]
    decreases |s|
  {
    if c in s {
      var i := IndexOf(s, c);
      JoinSplitOn(s[i + 1..], c);
      assert SplitOn(s, c)[1..] == SplitOn(s[i + 1..], c);
      assert s == s[..i] + [c] + s[i + 1..];
    }
  }

  /** `n` empty strings. */
  function Empties(n: nat): (r: seq<string>)
    ensures |r| == n && forall k :: 0 <= k < n ==> r[k] == ""
  {
    seq(n, _ => "")
  }

  /** `parts` with its trailing empty strings removed. */
  function DropTrailingEmpty(parts: seq<string>): (r: seq<string>)
    ensures r == [] || r[|r| - 1] != ""
    decreases |parts|
  {
    if |parts| > 0 && parts[|parts| - 1] == "" then DropTrailingEmpty(parts[..|parts| - 1])
    else parts
  }

  /** `s.split(c)` with the default limit, for a separator that is not a
      regular-expression metacharacter: a string without `c` gives itself
      (the empty string included); otherwise the pieces with the trailing
      empty ones removed. */
  function Split(s: string, c: char): (r: seq<string>)
    ensures c !in s ==> r == [s]
    ensures c in s ==> r == [] || r[|r| - 1] != ""
  {
    if c !in s then [s] else DropTrailingEmpty(SplitOn(s, c))
  }

  lemma {:induction false} DropTrailingEmptyShape(parts: seq<string>) returns (m: nat)
    ensures parts == DropTrailingEmpty(parts) + Empties(m)
    ensures DropTrailingEmpty(parts) == [] || DropTrailingEmpty(parts)[|DropTrailingEmpty(parts)| - 1] != ""
    decreases |parts|
  {
    if |parts| > 0 && parts[|parts| - 1] == "" {
      var init := parts[..|parts| - 1];
      m := DropTrailingEmptyShape(init);
      m := m + 1;
      assert parts == init + [""];
      assert Empties(m) == Empties(m - 1) + [""];
    } else {
      m := 0;
    }
  }

  lemma {:induction false} DropEmptiesAfter(k: string, v: string, n: nat)
    requires v != ""
    ensures DropTrailingEmpty([k, v] + Empties(n)) == [k, v]
    decreases n
  {
    if n > 0 {
      assert ([k, v] + Empties(n))[..2 + n - 1] == [k, v] + Empties(n - 1);
      DropEmptiesAfter(k, v, n - 1);
    }
  }

  lemma {:induction false} IndexOfAfter(k: string, rest: string, c: char)
    requires c !in k
    ensures IndexOf(k + [c] + rest, c) == |k|
    decreases |k|
  {
    if k != [] {
      assert (k + [c] + rest)[1..] == k[1..] + [c] + rest;
      IndexOfAfter(k[1..], rest, c);
    }
  }

  lemma SplitOnFirst(k: string, rest: string, c: char)
    requires c !in k
    ensures SplitOn(k + [c] + rest, c) == [k] + SplitOn(rest, c)
  {
    var s := k + [c] + rest;
    assert s[|k|] == c;
    IndexOfAfter(k, rest, c);
    assert s[..|k|] == k;
    assert s[|k| + 1..] == rest;
  }

  /** A leading separator yields an empty first piece. */
  lemma SplitOnLeading(rest: string, c: char)
    ensures SplitOn([c] + rest, c) == [""] + SplitOn(rest, c)
  {
    var s := [c] + rest;
    assert IndexOf(s, c) == 0;
    assert s[1..] == rest;
  }

  lemma EmptiesCons(n: nat)
    ensures [""] + Empties(n) == Empties(n + 1)
  {
  }

  lemma {:induction false} SplitOnRepeat(n: nat, c: char)
    ensures SplitOn(Repeat([c], n), c) == Empties(n + 1)
    decreases n
  {
    if n > 0 {
      var r := Repeat([c], n - 1);
      assert Repeat([c], n) == [c] + r;
      SplitOnLeading(r, c);
      SplitOnRepeat(n - 1, c);
      EmptiesCons(n);
    } else {
      assert c !in Repeat([c], 0);
    }
  }

  lemma {:induction false} SplitOnSeparators(v: string, n: nat, c: char)
    requires c !in v
    ensures SplitOn(v + Repeat([c], n), c) == [v] + Empties(n)
  {
    if n > 0 {
      var r := Repeat([c], n - 1);
      assert SplitOn(v + Repeat([c], n), c) == [v] + SplitOn(r, c) by {
        assert v + Repeat([c], n) == v + [c] + r;
        SplitOnFirst(v, r, c);
      }
      SplitOnRepeat(n - 1, c);
    } else {
      assert v + Repeat([c], n) == v;
    }
  }

  /** A key, the separator and a non-empty value, followed by any number of
      further separators, split into exactly the key and the value. */
  lemma SplitKeyValue(k: string, v: string, n: nat, c: char)
    requires c !in k && c !in v && v != ""
    ensures Split(k + [c] + v + Repeat([c], n), c) == [k, v]
  {
    var rest := v + Repeat([c], n);
    var s := k + [c] + v + Repeat([c], n);
    assert s == k + [c] + rest;
    assert c in s by {
      assert s[|k|] == c;
    }
    assert SplitOn(s, c) == [k, v] + Empties(n) by {
      SplitOnFirst(k, rest, c);
      SplitOnSeparators(v, n, c);
      assert [k] + ([v] + Empties(n)) == [k, v] + Empties(n);
    }
    DropEmptiesAfter(k, v, n);
  }

  lemma {:induction false} JoinEmptiesAfter(v: string, n: nat, c: char)
    ensures Join([v] + Empties(n), c) == v + Repeat([c], n)
    decreases n
  {
    if n > 0 {
      assert ([v] + Empties(n))[1..] == [""] + Empties(n - 1);
      JoinEmptiesAfter("", n - 1, c);
      assert "" + Repeat([c], n - 1) == Repeat([c], n - 1);
    }
  }

  lemma TwoPartsThenEmpties(parts: seq<string>, kv: seq<string>, n: nat, c: char)
    requires |kv| == 2 && parts == kv + Empties(n)
    ensures parts[0] == kv[0] && parts[1] == kv[1]
    ensures parts[1..] == [kv[1]] + Empties(n)
    ensures Join(parts, c) == kv[0] + [c] + Join(parts[1..], c)
  {
    assert parts[1..] == kv[1..] + Empties(n);
  }

  /** The converse of SplitKeyValue: a string that splits into exactly two
      parts is the first part, the separator, the non-empty second part and
      `n` more separators. */
  lemma SplitTwoParts(s: string, c: char) returns (n: nat)
    requires |Split(s, c)| == 2
    ensures c !in Split(s, c)[0] && c !in Split(s, c)[1] && Split(s, c)[1] != ""
    ensures s == Split(s, c)[0] + [c] + Split(s, c)[1] + Repeat([c], n)
  {
    assert c in s;
    var parts := SplitOn(s, c);
    var kv := Split(s, c);
    assert kv == DropTrailingEmpty(parts);
    n := DropTrailingEmptyShape(parts);
    TwoPartsThenEmpties(parts, kv, n, c);
    JoinSplitOn(s, c);
    JoinEmptiesAfter(kv[1], n, c);
  }
}
