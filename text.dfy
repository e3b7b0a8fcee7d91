/** The string operations the toolkit relies on: Python's `strip`, `rstrip`,
    `upper`, `lower`, `startswith` and `join`, over ASCII. */
module Text {

  /** The ASCII characters Python's `str.isspace` accepts: tab, line feed,
      vertical tab, form feed, carriage return, the four separators 28..31,
      and space. */
  predicate IsSpace(c: char)
  {
    c == ' ' || ('\t' <= c <= '\r') || (28 <= c as int <= 31)
  }

  predicate AllSpace(s: string)
  {
    forall i :: 0 <= i < |s| ==> IsSpace(s[i])
  }

  /** `s.lstrip()` */
  function TrimStart(s: string): (r: string)
    ensures |r| <= |s| && r == s[|s| - |r|..]
    ensures r == [] || !IsSpace(r[0])
  {
    if s != [] && IsSpace(s[0]) then TrimStart(s[1..]) else s
  }

  /** What `lstrip` removes is whitespace. */
  lemma {:induction false} TrimStartRemovesSpace(s: string)
    ensures AllSpace(s[..|s| - |TrimStart(s)|])
  {
    if s != [] && IsSpace(s[0]) {
      TrimStartRemovesSpace(s[1..]);
      assert s[..|s| - |TrimStart(s)|] == [s[0]] + s[1..][..|s[1..]| - |TrimStart(s[1..])|];
    }
  }

  /** `s.rstrip()` */
  function TrimEnd(s: string): (r: string)
    ensures r <= s
    ensures r == [] || !IsSpace(r[|r| - 1])
  {
    if s != [] && IsSpace(s[|s| - 1]) then TrimEnd(s[..|s| - 1]) else s
  }

  /** What `rstrip` removes is whitespace. */
  lemma {:induction false} TrimEndRemovesSpace(s: string)
    ensures AllSpace(s[|TrimEnd(s)|..])
  {
    if s != [] && IsSpace(s[|s| - 1]) {
      var r := TrimEnd(s[..|s| - 1]);
      TrimEndRemovesSpace(s[..|s| - 1]);
      assert s[|r|..] == s[..|s| - 1][|r|..] + [s[|s| - 1]];
    }
  }

  /** `s.strip()` */
  function Strip(s: string): (r: string)
    ensures r == [] || (!IsSpace(r[0]) && !IsSpace(r[|r| - 1]))
  {
    TrimEnd(TrimStart(s))
  }

  lemma {:induction false} TrimStartSpaces(a: string, rest: string)
    requires AllSpace(a)
    requires rest == [] || !IsSpace(rest[0])
    ensures TrimStart(a + rest) == rest
    decreases |a|
  {
    if a != [] {
      assert (a + rest)[1..] == a[1..] + rest;
      TrimStartSpaces(a[1..], rest);
    }
  }

  lemma {:induction false} TrimEndSpaces(rest: string, c: string)
    requires AllSpace(c)
    requires rest == [] || !IsSpace(rest[|rest| - 1])
    ensures TrimEnd(rest + c) == rest
    decreases |c|
  {
    if c != [] {
      assert (rest + c)[..|rest + c| - 1] == rest + c[..|c| - 1];
      TrimEndSpaces(rest, c[..|c| - 1]);
    }
  }

  /** Strip removes exactly the surrounding whitespace: a core with no
      whitespace at either end, wrapped in any whitespace, strips to that core. */
  lemma StripSurrounded(a: string, core: string, c: string)
    requires AllSpace(a) && AllSpace(c)
    requires core == [] || (!IsSpace(core[0]) && !IsSpace(core[|core| - 1]))
    ensures Strip(a + core + c) == core
  {
    if core == [] {
      assert a + core + c == a + c;
      TrimStartSpaces(a + c, []);
      assert a + c + [] == a + c;
      TrimEndSpaces([], []);
    } else {
      assert a + core + c == a + (core + c);
      TrimStartSpaces(a, core + c);
      TrimEndSpaces(core, c);
    }
  }

  /** Leading whitespace does not change `lstrip`. */
  lemma {:induction false} TrimStartPadded(a: string, u: string)
    requires AllSpace(a)
    ensures TrimStart(a + u) == TrimStart(u)
    decreases |a|
  {
    if a != [] {
      assert (a + u)[0] == a[0];
      assert (a + u)[1..] == a[1..] + u;
      TrimStartPadded(a[1..], u);
    } else {
      assert a + u == u;
    }
  }

  /** Trailing whitespace does not change `rstrip`. */
  lemma {:induction false} TrimEndPadded(u: string, c: string)
    requires AllSpace(c)
    ensures TrimEnd(u + c) == TrimEnd(u)
    decreases |c|
  {
    if c != [] {
      assert (u + c)[|u + c| - 1] == c[|c| - 1];
      assert (u + c)[..|u + c| - 1] == u + c[..|c| - 1];
      TrimEndPadded(u, c[..|c| - 1]);
    } else {
      assert u + c == u;
    }
  }

  /** `lstrip` of a string with some non-whitespace stops inside it, so
      whatever follows is kept whole. */
  lemma {:induction false} TrimStartAppend(t: string, c: string)
    ensures TrimStart(t) != [] ==> TrimStart(t + c) == TrimStart(t) + c
    ensures TrimStart(t) == [] ==> TrimStart(t + c) == TrimStart(c)
  {
    if t == [] {
      assert t + c == c;
    } else if IsSpace(t[0]) {
      assert (t + c)[0] == t[0];
      assert (t + c)[1..] == t[1..] + c;
      TrimStartAppend(t[1..], c);
    } else {
      assert (t + c)[0] == t[0];
    }
  }

  /** Extra whitespace around a string does not change its strip. */
  lemma StripPadded(a: string, t: string, c: string)
    requires AllSpace(a) && AllSpace(c)
    ensures Strip(a + t + c) == Strip(t)
  {
    assert a + t + c == a + (t + c);
    TrimStartPadded(a, t + c);
    TrimStartAppend(t, c);
    if TrimStart(t) != [] {
      TrimEndPadded(TrimStart(t), c);
    } else {
      assert [] + c == c;
      TrimStartSpaces(c, []);
      assert c + [] == c;
    }
  }

  /** A string with no whitespace at either end is its own strip. */
  lemma StripUnchanged(s: string)
    requires s == [] || (!IsSpace(s[0]) && !IsSpace(s[|s| - 1]))
    ensures Strip(s) == s
  {
    assert [] + s + [] == s;
    StripSurrounded([], s, []);
  }

  /** A string that is entirely whitespace strips to the empty string, and
      nothing else does. */
  lemma StripEmpty(s: string)
    ensures Strip(s) == [] <==> AllSpace(s)
  {
    var t := TrimStart(s);
    TrimStartRemovesSpace(s);
    if t == [] {
      assert s[..|s|] == s;
    } else {
      TrimEndRemovesSpace(t);
      assert s[|s| - |t|] == t[0];
      assert t[0..] == t;
    }
  }

  /** Stripping twice is stripping once. */
  lemma StripIdempotent(s: string)
    ensures Strip(Strip(s)) == Strip(s)
  {
    var r := Strip(s);
    assert [] + r + [] == r;
    StripSurrounded([], r, []);
  }

  function UpperChar(c: char): char
  {
    if 'a' <= c <= 'z' then (c as int - 32) as char else c
  }

  function LowerChar(c: char): char
  {
    if 'A' <= c <= 'Z' then (c as int + 32) as char else c
  }

  /** `s.upper()` over ASCII */
  function Upper(s: string): (r: string)
    ensures |r| == |s|
    ensures forall i :: 0 <= i < |s| ==> r[i] == UpperChar(s[i])
  {
    if s == [] then [] else [UpperChar(s[0])] + Upper(s[1..])
  }

  /** `s.lower()` over ASCII */
  function Lower(s: string): (r: string)
    ensures |r| == |s|
    ensures forall i :: 0 <= i < |s| ==> r[i] == LowerChar(s[i])
  {
    if s == [] then [] else [LowerChar(s[0])] + Lower(s[1..])
  }

  /** `s.startswith(p)` */
  predicate StartsWith(s: string, p: string)
  {
    |p| <= |s| && s[..|p|] == p
  }

  /** `sep.join(parts)` */
  function Join(parts: seq<string>, sep: string): string
  {
    if parts == [] then "" else if |parts| == 1 then parts[0] else parts[0] + sep + Join(parts[1..], sep)
  }

  /** Joining one more part puts the separator between it and the joined
      earlier parts. */
  lemma {:induction false} JoinSnoc(parts: seq<string>, x: string, sep: string)
    requires parts != []
    ensures Join(parts + [x], sep) == Join(parts, sep) + sep + x
  {
    if |parts| > 1 {
      assert (parts + [x])[1..] == parts[1..] + [x];
      JoinSnoc(parts[1..], x, sep);
    }
  }

  /** `s.rstrip(c)` for a single character `c`. */
  function RStrip(s: string, c: char): (r: string)
    ensures r <= s
    ensures r == [] || r[|r| - 1] != c
    ensures forall i :: |r| <= i < |s| ==> s[i] == c
  {
    if s != [] && s[|s| - 1] == c then RStrip(s[..|s| - 1], c) else s
  }
}
