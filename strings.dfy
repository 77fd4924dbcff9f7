/**
 * The JavaScript string operations the configuration layer relies on:
 * `trim`, `split` on one character, `join`, and the global replacement of the
 * two-character escape backslash-n by a newline.
 */
module Strings {

  /** The whitespace this model trims: space, tab, line feed and carriage return. */
  predicate IsWhitespace(c: char) {
    c == ' ' || c == '\t' || c == '\n' || c == '\r'
  }

  predicate AllWhitespace(s: string) {
    forall i :: 0 <= i < |s| ==> IsWhitespace(s[i])
  }

  /** Neither the first nor the last character is whitespace. */
  predicate EdgeTrimmed(s: string) {
    s == [] || (!IsWhitespace(s[0]) && !IsWhitespace(s[|s| - 1]))
  }

  /** `trimStart`: the suffix left after dropping every leading whitespace character. */
  function TrimStart(s: string): (r: string)
    ensures |r| <= |s|
    ensures r == [] || !IsWhitespace(r[0])
  {
    if s != [] && IsWhitespace(s[0]) then TrimStart(s[1..]) else s
  }

  /** The characters `trimStart` keeps are the rest of `s`, in order. */
  lemma {:induction false} TrimStartAt(s: string, i: nat)
    requires i < |TrimStart(s)|
    ensures TrimStart(s)[i] == s[|s| - |TrimStart(s)| + i]
  {
    if s != [] && IsWhitespace(s[0]) {
      TrimStartAt(s[1..], i);
    }
  }

  /** The characters `trimStart` drops are whitespace. */
  lemma {:induction false} TrimStartPadding(s: string, i: nat)
    requires i < |s| - |TrimStart(s)|
    ensures IsWhitespace(s[i])
  {
    if i > 0 {
      TrimStartPadding(s[1..], i - 1);
    }
  }

  /** `trimEnd`: the prefix left after dropping every trailing whitespace character. */
  function TrimEnd(s: string): (r: string)
    ensures |r| <= |s|
    ensures r == [] || !IsWhitespace(r[|r| - 1])
    ensures r != [] ==> r[0] == s[0]
  {
    if s != [] && IsWhitespace(s[|s| - 1]) then TrimEnd(s[..|s| - 1]) else s
  }

  /** The characters `trimEnd` keeps are the start of `s`, in order. */
  lemma {:induction false} TrimEndAt(s: string, i: nat)
    requires i < |TrimEnd(s)|
    ensures TrimEnd(s)[i] == s[i]
  {
    if s != [] && IsWhitespace(s[|s| - 1]) {
      TrimEndAt(s[..|s| - 1], i);
    }
  }

  /** The characters `trimEnd` drops are whitespace. */
  lemma {:induction false} TrimEndPadding(s: string, i: nat)
    requires |TrimEnd(s)| <= i < |s|
    ensures IsWhitespace(s[i])
  {
    if i < |s| - 1 {
      TrimEndPadding(s[..|s| - 1], i);
    }
  }

  /** A string is its `trimEnd` followed by the whitespace it dropped. */
  lemma TrimEndSplits(t: string)
    ensures t == TrimEnd(t) + t[|TrimEnd(t)|..]
    ensures AllWhitespace(t[|TrimEnd(t)|..])
  {
    var r := TrimEnd(t);
    forall j | 0 <= j < |r| ensures r[j] == t[j] {
      TrimEndAt(t, j);
    }
    forall k | 0 <= k < |t| - |r| ensures IsWhitespace(t[|r|..][k]) {
      TrimEndPadding(t, |r| + k);
    }
    assert t == t[..|r|] + t[|r|..];
  }

  /** Number of leading whitespace characters of `s`. */
  function Lead(s: string): nat {
    |s| - |TrimStart(s)|
  }

  /** `trim`: `trimEnd` after `trimStart`; neither end of the result is whitespace. */
  function Trim(s: string): (r: string)
    ensures EdgeTrimmed(r)
    ensures Lead(s) + |r| <= |s|
  {
    TrimEnd(TrimStart(s))
  }

  /** The trimmed string is the part of `s` that starts after its leading whitespace. */
  lemma TrimAt(s: string, i: nat)
    requires i < |Trim(s)|
    ensures Trim(s)[i] == s[Lead(s) + i]
  {
    TrimEndAt(TrimStart(s), i);
    TrimStartAt(s, i);
  }

  /** Everything of `s` before and after the trimmed string is whitespace. */
  lemma TrimPadding(s: string, i: nat)
    requires i < Lead(s) || Lead(s) + |Trim(s)| <= i < |s|
    ensures IsWhitespace(s[i])
  {
    var t := TrimStart(s);
    if i < Lead(s) {
      TrimStartPadding(s, i);
    } else {
      TrimStartAt(s, i - Lead(s));
      TrimEndPadding(t, i - Lead(s));
    }
  }

  lemma {:induction false} TrimStartSkips(p: string, x: string)
    requires AllWhitespace(p)
    requires x == [] || !IsWhitespace(x[0])
    ensures TrimStart(p + x) == x
  {
    if p != [] {
      assert (p + x)[1..] == p[1..] + x;
      TrimStartSkips(p[1..], x);
    }
  }

  lemma {:induction false} TrimEndSkips(x: string, q: string)
    requires AllWhitespace(q)
    requires x == [] || !IsWhitespace(x[|x| - 1])
    ensures TrimEnd(x + q) == x
  {
    if q != [] {
      assert (x + q)[..|x + q| - 1] == x + q[..|q| - 1];
      TrimEndSkips(x, q[..|q| - 1]);
    }
  }

  /**
   * The contract of Trim determines its result: whatever edge-trimmed string
   * is framed by whitespace in `s` is the trim of `s`.
   */
  lemma TrimUnique(p: string, t: string, q: string)
    requires AllWhitespace(p) && AllWhitespace(q) && EdgeTrimmed(t)
    ensures Trim(p + t + q) == t
  {
    if t == [] {
      assert p + t + q == p + q;
      assert AllWhitespace(p + q);
      TrimStartSkips(p + q, []);
      assert p + q + [] == p + q;
    } else {
      assert p + t + q == p + (t + q);
      TrimStartSkips(p, t + q);
      TrimEndSkips(t, q);
    }
  }

  /** Trimming leaves an already trimmed string alone. */
  lemma TrimmedIsFixed(t: string)
    requires EdgeTrimmed(t)
    ensures Trim(t) == t
  {
    assert [] + t == t && t + [] == t;
    TrimStartSkips([], t);
    TrimEndSkips(t, []);
  }

  /** Number of occurrences of `c` in `s`. */
  function Count(s: string, c: char): (n: nat)
    ensures n <= |s|
    ensures n == 0 <==> c !in s
  {
    if s == [] then 0 else (if s[0] == c then 1 else 0) + Count(s[1..], c)
  }

  /** `parts.join(sep)`: it begins with the first piece and holds every piece. */
  function Join(parts: seq<string>, sep: string): (r: string)
    ensures |parts| > 0 ==> parts[0] <= r
    ensures forall i :: 0 <= i < |parts| ==> |parts[i]| <= |r|
  {
    if |parts| == 0 then []
    else if |parts| == 1 then parts[0]
    else
      assert forall i :: 1 <= i < |parts| ==> parts[1..][i - 1] == parts[i];
      assert (parts[0] + sep + Join(parts[1..], sep))[..|parts[0]|] == parts[0];
      parts[0] + sep + Join(parts[1..], sep)
  }

  lemma Regroup<T>(a: seq<T>, b: seq<T>, c: seq<T>)
    ensures (a + b) + c == a + (b + c)
  {
  }

  /**
   * `s.split(sep)` for a one-character separator: one piece per separator plus
   * one, none of them holding the separator (so `""` splits into `[""]`).
   */
  function Split(s: string, sep: char): (parts: seq<string>)
    ensures |parts| == Count(s, sep) + 1
    ensures forall i :: 0 <= i < |parts| ==> sep !in parts[i]
  {
    if s == [] then [[]]
    else
      var rest := Split(s[1..], sep);
      if s[0] == sep then [[]] + rest else [[s[0]] + rest[0]] + rest[1..]
  }

  /** Joining the pieces of a split with the separator gives back the string. */
  lemma {:induction false} JoinSplit(s: string, sep: char)
    ensures Join(Split(s, sep), [sep]) == s
  {
    if s != [] {
      var rest := Split(s[1..], sep);
      JoinSplit(s[1..], sep);
      if s[0] == sep {
        assert ([[]] + rest)[1..] == rest;
      } else if |rest| > 1 {
        assert ([[s[0]] + rest[0]] + rest[1..])[1..] == rest[1..];
      }
    }
  }

  lemma {:induction false} SplitAfterPlainPrefix(p: string, t: string, sep: char)
    requires sep !in p
    ensures Split(p + t, sep) == [p + Split(t, sep)[0]] + Split(t, sep)[1..]
  {
    var r := Split(t, sep);
    if p != [] {
      Uncons(p, t);
      SplitCons(p[0], p[1..] + t, sep);
      SplitAfterPlainPrefix(p[1..], t, sep);
      Uncons(p, r[0]);
    } else {
      assert p + t == t;
      assert p + r[0] == r[0];
      assert r == [r[0]] + r[1..];
    }
  }

  lemma Uncons<T>(p: seq<T>, t: seq<T>)
    requires p != []
    ensures p + t == [p[0]] + (p[1..] + t)
  {
    assert [p[0]] + p[1..] == p;
  }

  /** A leading character other than the separator joins the first piece. */
  lemma SplitCons(c: char, q: string, sep: char)
    requires c != sep
    ensures Split([c] + q, sep) == [[c] + Split(q, sep)[0]] + Split(q, sep)[1..]
  {
    assert ([c] + q)[1..] == q;
  }



  /** Splitting a join of separator-free pieces gives back the pieces. */
  lemma {:induction false} SplitJoin(parts: seq<string>, sep: char)
    requires |parts| > 0
    requires forall i :: 0 <= i < |parts| ==> sep !in parts[i]
    ensures Split(Join(parts, [sep]), sep) == parts
  {
    if |parts| == 1 {
      SplitAfterPlainPrefix(parts[0], [], sep);
      assert parts[0] + [] == parts[0];
    } else {
      var tail := Join(parts[1..], [sep]);
      SplitJoin(parts[1..], sep);
      assert Join(parts, [sep]) == parts[0] + ([sep] + tail);
      assert ([sep] + tail)[1..] == tail;
      SplitAfterPlainPrefix(parts[0], [sep] + tail, sep);
      assert parts[0] + [] == parts[0];
    }
  }

  /** Joining two non-empty lists of pieces puts one separator between them. */
  lemma {:induction false} JoinAppend(xs: seq<string>, ys: seq<string>, sep: string)
    requires |xs| > 0 && |ys| > 0
    ensures Join(xs + ys, sep) == Join(xs, sep) + sep + Join(ys, sep)
  {
    if |xs| > 1 {
      assert (xs + ys)[1..] == xs[1..] + ys;
      JoinAppend(xs[1..], ys, sep);
    } else {
      assert (xs + ys)[1..] == ys;
    }
  }

  /** A character found in neither the pieces nor the separator is not in the join. */
  lemma {:induction false} JoinAvoids(parts: seq<string>, sep: string, c: char)
    requires c !in sep
    requires forall i :: 0 <= i < |parts| ==> c !in parts[i]
    ensures c !in Join(parts, sep)
  {
    if |parts| > 1 {
      JoinAvoids(parts[1..], sep, c);
    }
  }

  /** Number of positions holding a backslash immediately followed by `n`. */
  function EscapeCount(s: string): nat {
    if |s| < 2 then 0 else (if s[0] == '\\' && s[1] == 'n' then 1 else 0) + EscapeCount(s[1..])
  }

  /**
   * `s.replace(/\\n/g, '\n')`: scanning left to right, every backslash-n pair
   * becomes one newline; each replacement shortens the string by one, and a
   * string without such a pair is returned unchanged.
   */
  function UnescapeNewlines(s: string): (r: string)
    ensures |r| == |s| - EscapeCount(s)
    ensures EscapeCount(s) == 0 ==> r == s
  {
    if |s| >= 2 && s[0] == '\\' && s[1] == 'n' then
      assert |s| == 2 || (s[1..][0] != '\\' && s[1..][1..] == s[2..]);
      "\n" + UnescapeNewlines(s[2..])
    else if s == [] then []
    else [s[0]] + UnescapeNewlines(s[1..])
  }

  /**
   * No backslash-n pair straddles another pair's edges, so the replacement
   * works piecewise around any pair. With the unchanged case above this pins
   * the result down for every string.
   */
  lemma {:induction false} UnescapeAroundPair(a: string, b: string)
    ensures UnescapeNewlines(a + "\\n" + b) == UnescapeNewlines(a) + "\n" + UnescapeNewlines(b)
  {
    if a == [] {
      assert a + "\\n" + b == "\\n" + b;
      UnescapePairStep(b);
    } else if |a| >= 2 && a[0] == '\\' && a[1] == 'n' {
      UnescapeAroundPair(a[2..], b);
      LeadingPairAroundPair(a, b);
    } else {
      UnescapeAroundPair(a[1..], b);
      LeadingCharAroundPair(a, b);
    }
  }

  /** A pair at the head of `a` is replaced first on both sides. */
  lemma LeadingPairAroundPair(a: string, b: string)
    requires |a| >= 2 && a[0] == '\\' && a[1] == 'n'
    requires UnescapeNewlines(a[2..] + "\\n" + b) == UnescapeNewlines(a[2..]) + "\n" + UnescapeNewlines(b)
    ensures UnescapeNewlines(a + "\\n" + b) == UnescapeNewlines(a) + "\n" + UnescapeNewlines(b)
  {
    var rest := a[2..] + "\\n" + b;
    assert a == "\\n" + a[2..];
    assert a + "\\n" + b == "\\n" + rest;
    UnescapePairStep(a[2..]);
    UnescapePairStep(rest);
    PrefixAroundPair(UnescapeNewlines(a + "\\n" + b), UnescapeNewlines(rest), UnescapeNewlines(a),
                     UnescapeNewlines(a[2..]), UnescapeNewlines(b), "\n");
  }

  /** Any other head character of `a` is kept first on both sides. */
  lemma LeadingCharAroundPair(a: string, b: string)
    requires a != [] && !(|a| >= 2 && a[0] == '\\' && a[1] == 'n')
    requires UnescapeNewlines(a[1..] + "\\n" + b) == UnescapeNewlines(a[1..]) + "\n" + UnescapeNewlines(b)
    ensures UnescapeNewlines(a + "\\n" + b) == UnescapeNewlines(a) + "\n" + UnescapeNewlines(b)
  {
    var rest := a[1..] + "\\n" + b;
    assert a == [a[0]] + a[1..];
    assert a + "\\n" + b == [a[0]] + rest;
    assert rest[0] == (if |a| >= 2 then a[1] else '\\');
    UnescapeCharStep(a[0], a[1..]);
    UnescapeCharStep(a[0], rest);
    PrefixAroundPair(UnescapeNewlines(a + "\\n" + b), UnescapeNewlines(rest), UnescapeNewlines(a),
                     UnescapeNewlines(a[1..]), UnescapeNewlines(b), [a[0]]);
  }

  /** The same head `h` in front of both sides keeps a newline-joined pair of results joined. */
  lemma PrefixAroundPair(whole: string, rest: string, left: string, ua: string, ub: string, h: string)
    requires whole == h + rest && rest == ua + "\n" + ub && left == h + ua
    ensures whole == left + "\n" + ub
  {
    Regroup(h + ua, "\n", ub);
    Regroup(h, ua, "\n" + ub);
    Regroup(ua, "\n", ub);
  }

  lemma UnescapePairStep(t: string)
    ensures UnescapeNewlines("\\n" + t) == "\n" + UnescapeNewlines(t)
  {
    assert ("\\n" + t)[2..] == t;
  }

  lemma UnescapeCharStep(c: char, t: string)
    requires !(c == '\\' && t != [] && t[0] == 'n')
    ensures UnescapeNewlines([c] + t) == [c] + UnescapeNewlines(t)
  {
    assert ([c] + t)[1..] == t;
  }

  /** The inverse direction: every newline written as backslash-n, as it travels in an environment variable. */
  function EscapeNewlines(t: string): (s: string)
    ensures |s| == |t| + Count(t, '\n')
    ensures '\n' !in s
  {
    if t == [] then []
    else if t[0] == '\n' then "\\n" + EscapeNewlines(t[1..])
    else [t[0]] + EscapeNewlines(t[1..])
  }

  /** Unescaping adds exactly one newline per escape pair. */
  lemma {:induction false} UnescapeCountsNewlines(s: string)
    ensures Count(UnescapeNewlines(s), '\n') == Count(s, '\n') + EscapeCount(s)
  {
    if |s| >= 2 && s[0] == '\\' && s[1] == 'n' {
      UnescapeCountsNewlines(s[2..]);
      assert s[1..][1..] == s[2..];
      assert ("\n" + UnescapeNewlines(s[2..]))[1..] == UnescapeNewlines(s[2..]);
    } else if s != [] {
      UnescapeCountsNewlines(s[1..]);
      assert ([s[0]] + UnescapeNewlines(s[1..]))[1..] == UnescapeNewlines(s[1..]);
    }
  }

  /** A newline-free string survives unescaping then escaping. */
  lemma {:induction false} EscapeUnescape(s: string)
    requires '\n' !in s
    ensures EscapeNewlines(UnescapeNewlines(s)) == s
  {
    if |s| >= 2 && s[0] == '\\' && s[1] == 'n' {
      assert '\n' !in s[2..];
      EscapeUnescape(s[2..]);
      assert ("\n" + UnescapeNewlines(s[2..]))[1..] == UnescapeNewlines(s[2..]);
      assert s == "\\n" + s[2..];
    } else if s != [] {
      assert '\n' !in s[1..];
      EscapeUnescape(s[1..]);
      assert ([s[0]] + UnescapeNewlines(s[1..]))[1..] == UnescapeNewlines(s[1..]);
    }
  }

  /** A string without backslash-n pairs survives escaping then unescaping. */
  lemma {:induction false} UnescapeEscape(t: string)
    requires EscapeCount(t) == 0
    ensures UnescapeNewlines(EscapeNewlines(t)) == t
  {
    if t != [] {
      assert EscapeCount(t[1..]) == 0;
      UnescapeEscape(t[1..]);
      var e := EscapeNewlines(t[1..]);
      if t[0] == '\n' {
        assert ("\\n" + e)[2..] == e;
      } else {
        assert ([t[0]] + e)[1..] == e;
        if t[0] == '\\' && e != [] {
          assert t[1] != 'n';
        }
      }
    }
  }

  /**
   * `s.length` in JavaScript: the number of UTF-16 code units, one for a
   * character of the Basic Multilingual Plane and two (a surrogate pair) for a
   * character beyond U+FFFF.
   */
  function Utf16Length(s: string): (n: nat)
    ensures |s| <= n <= 2 * |s|
    ensures n == 0 <==> s == []
  {
    if s == [] then 0 else (if s[0] as int >= 0x10000 then 2 else 1) + Utf16Length(s[1..])
  }

  /** Without characters beyond U+FFFF the JavaScript length is the number of characters. */
  lemma {:induction false} Utf16LengthOfBmp(s: string)
    requires forall k :: 0 <= k < |s| ==> s[k] as int < 0x10000
    ensures Utf16Length(s) == |s|
  {
    if s != [] {
      assert forall k :: 0 <= k < |s[1..]| ==> s[1..][k] == s[k + 1];
      Utf16LengthOfBmp(s[1..]);
    }
  }

  /** Every character beyond U+FFFF counts twice. */
  lemma {:induction false} Utf16LengthOfAstral(s: string)
    requires forall k :: 0 <= k < |s| ==> s[k] as int >= 0x10000
    ensures Utf16Length(s) == 2 * |s|
  {
    if s != [] {
      assert forall k :: 0 <= k < |s[1..]| ==> s[1..][k] == s[k + 1];
      Utf16LengthOfAstral(s[1..]);
    }
  }
}
