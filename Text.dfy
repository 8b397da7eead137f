/**
 * The Python string operations the policy page uses, on `string` = `seq<char>`:
 * `s.replace("|", "\\|")`, `sep.join(xs)` and `s.lower()`, with the counting
 * and inverse functions used to state their properties.
 */
module Text {

  /** Number of occurrences of `c` in `s`. */
  function CountChar(s: string, c: char): (n: nat)
    ensures n <= |s|
    ensures n == 0 <==> c !in s
  {
    if |s| == 0 then 0
    else
      assert s == [s[0]] + s[1..];
      (if s[0] == c then 1 else 0) + CountChar(s[1..], c)
  }

  lemma {:induction false} CountCharAppend(a: string, b: string, c: char)
    ensures CountChar(a + b, c) == CountChar(a, c) + CountChar(b, c)
  {
    if |a| == 0 {
      assert a + b == b;
    } else {
      assert (a + b)[1..] == a[1..] + b;
      CountCharAppend(a[1..], b, c);
    }
  }

  // ---------------------------------------------------------------------------
  // Pipe escaping

  /** `s.replace("|", "\\|")`: a backslash is put in front of every pipe. */
  function EscapePipes(s: string): (r: string)
    ensures |r| == |s| + CountChar(s, '|')
    ensures |r| > 0 ==> r[0] != '|'
  {
    if |s| == 0 then ""
    else if s[0] == '|' then "\\|" + EscapePipes(s[1..])
    else [s[0]] + EscapePipes(s[1..])
  }

  /** Every pipe in `s` is immediately preceded by a backslash. */
  predicate PipesEscaped(s: string)
  {
    forall i :: 0 <= i < |s| && s[i] == '|' ==> 0 < i && s[i - 1] == '\\'
  }

  /** Deletes the backslash in front of every escaped pipe. */
  function UnescapePipes(r: string): (s: string)
    ensures |s| <= |r|
  {
    if |r| == 0 then ""
    else if |r| >= 2 && r[0] == '\\' && r[1] == '|' then "|" + UnescapePipes(r[2..])
    else [r[0]] + UnescapePipes(r[1..])
  }

  lemma {:induction false} EscapePipesEscapes(s: string)
    ensures PipesEscaped(EscapePipes(s))
  {
    if |s| > 0 {
      EscapePipesEscapes(s[1..]);
      var t := EscapePipes(s[1..]);
      var head := if s[0] == '|' then "\\|" else [s[0]];
      var r := head + t;
      assert r == EscapePipes(s);
      forall i | 0 <= i < |r| && r[i] == '|'
        ensures 0 < i && r[i - 1] == '\\'
      {
        if i >= |head| {
          assert t[i - |head|] == '|';
          assert r[i - 1] == t[i - |head| - 1];
        }
      }
    }
  }

  lemma {:induction false} UnescapeEscape(s: string)
    ensures UnescapePipes(EscapePipes(s)) == s
  {
    if |s| > 0 {
      var t := EscapePipes(s[1..]);
      UnescapeEscape(s[1..]);
      if s[0] == '|' {
        assert ("\\|" + t)[2..] == t;
      } else {
        assert ([s[0]] + t)[1..] == t;
      }
    }
  }

  /** Escaping touches pipes only: every other character keeps its count. */
  lemma {:induction false} EscapePipesKeepsCount(s: string, c: char)
    requires c != '|' && c != '\\'
    ensures CountChar(EscapePipes(s), c) == CountChar(s, c)
  {
    if |s| > 0 {
      EscapePipesKeepsCount(s[1..], c);
      var head := if s[0] == '|' then "\\|" else [s[0]];
      CountCharAppend(head, EscapePipes(s[1..]), c);
    }
  }

  /** A text without pipes is left unchanged by escaping. */
  lemma {:induction false} EscapePipesNoPipe(s: string)
    requires '|' !in s
    ensures EscapePipes(s) == s
  {
    if |s| > 0 {
      assert s == [s[0]] + s[1..];
      EscapePipesNoPipe(s[1..]);
    }
  }

  // ---------------------------------------------------------------------------
  // Join

  /** `sep.join(xs)`. */
  function Join(sep: string, xs: seq<string>): (r: string)
    ensures |xs| == 0 ==> r == ""
    ensures |xs| == 1 ==> r == xs[0]
    ensures |xs| > 0 ==> xs[0] <= r
  {
    if |xs| == 0 then ""
    else if |xs| == 1 then xs[0]
    else
      var init, last := Join(sep, xs[..|xs| - 1]), xs[|xs| - 1];
      assert xs[..|xs| - 1][0] == xs[0];
      init + sep + last
  }

  /** Joining two non-empty lists puts one separator between their joins. */
  lemma {:induction false} JoinAppend(sep: string, xs: seq<string>, ys: seq<string>)
    requires |xs| > 0 && |ys| > 0
    ensures Join(sep, xs + ys) == Join(sep, xs) + sep + Join(sep, ys)
  {
    var n := |xs + ys|;
    var last := ys[|ys| - 1];
    if |ys| == 1 {
      assert (xs + ys)[..n - 1] == xs;
      assert Join(sep, xs + ys) == Join(sep, xs) + sep + last;
    } else {
      var init := ys[..|ys| - 1];
      assert (xs + ys)[..n - 1] == xs + init;
      assert Join(sep, xs + ys) == Join(sep, xs + init) + sep + last;
      assert Join(sep, ys) == Join(sep, init) + sep + last;
      JoinAppend(sep, xs, init);
    }
  }

  /** A character found neither in the separator nor in any element is not in the join. */
  lemma {:induction false} JoinAvoids(sep: string, xs: seq<string>, c: char)
    requires c !in sep
    requires forall k :: 0 <= k < |xs| ==> c !in xs[k]
    ensures c !in Join(sep, xs)
  {
    if |xs| > 1 {
      JoinAvoids(sep, xs[..|xs| - 1], c);
    }
  }

  /**
   * With a separator holding `c` once and elements free of it, the join holds
   * `c` once between each two neighbouring elements.
   */
  lemma {:induction false} JoinCount(sep: string, xs: seq<string>, c: char)
    requires |xs| > 0
    requires CountChar(sep, c) == 1
    requires forall k :: 0 <= k < |xs| ==> c !in xs[k]
    ensures CountChar(Join(sep, xs), c) == |xs| - 1
  {
    if |xs| > 1 {
      var init := xs[..|xs| - 1];
      var last := xs[|xs| - 1];
      JoinCount(sep, init, c);
      CountCharAppend(Join(sep, init), sep, c);
      CountCharAppend(Join(sep, init) + sep, last, c);
    }
  }

  // ---------------------------------------------------------------------------
  // Concatenation of lines

  /** `"".join(lines)`: the strings one after the other. */
  function Concat(lines: seq<string>): string
  {
    if |lines| == 0 then "" else Concat(lines[..|lines| - 1]) + lines[|lines| - 1]
  }

  lemma {:induction false} ConcatAppend(a: seq<string>, b: seq<string>)
    ensures Concat(a + b) == Concat(a) + Concat(b)
  {
    if |b| == 0 {
      assert a + b == a;
    } else {
      var init := b[..|b| - 1];
      assert (a + b)[..|a + b| - 1] == a + init;
      ConcatAppend(a, init);
    }
  }

  /** When every string holds `c` exactly once, the concatenation holds it once per string. */
  lemma {:induction false} ConcatCountOnce(lines: seq<string>, c: char)
    requires forall k :: 0 <= k < |lines| ==> CountChar(lines[k], c) == 1
    ensures CountChar(Concat(lines), c) == |lines|
  {
    if |lines| > 0 {
      var init := lines[..|lines| - 1];
      ConcatCountOnce(init, c);
      CountCharAppend(Concat(init), lines[|lines| - 1], c);
    }
  }

  // ---------------------------------------------------------------------------
  // Lower-casing

  function LowerChar(c: char): char
  {
    if 'A' <= c <= 'Z' then (c as int + 32) as char else c
  }

  /** `s.lower()`, on ASCII letters. */
  function Lower(s: string): (r: string)
    ensures |r| == |s|
    ensures forall i :: 0 <= i < |r| ==> !('A' <= r[i] <= 'Z')
    ensures forall i :: 0 <= i < |s| && !('A' <= s[i] <= 'Z') ==> r[i] == s[i]
    ensures forall i :: 0 <= i < |s| && 'A' <= s[i] <= 'Z' ==> r[i] as int == s[i] as int + 32
  {
    seq(|s|, i requires 0 <= i < |s| => LowerChar(s[i]))
  }
}
