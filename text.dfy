/** The Python string operations the system relies on, over ASCII text:
    str.strip, str.startswith, the `in` test, str.upper/str.lower,
    str.replace with an empty replacement, str.split, str.count and
    the code-point order that sorted() uses. */
module Text {
  import opened Common

  /** Python's str.isspace on ASCII: space, \t \n \v \f \r, and the
      separators \x1c-\x1f. */
  predicate IsSpace(c: char)
  {
    c == ' ' || 9 <= c as int <= 13 || 28 <= c as int <= 31
  }

  function TrimStart(s: string): string
  {
    if s != [] && IsSpace(s[0]) then TrimStart(s[1..]) else s
  }

  function TrimEnd(s: string): string
  {
    if s != [] && IsSpace(s[|s| - 1]) then TrimEnd(s[..|s| - 1]) else s
  }

  /** s.strip() */
  function Strip(s: string): string
  {
    TrimEnd(TrimStart(s))
  }

  /** lstrip drops a run of leading whitespace and no more. */
  lemma {:induction false} TrimStartSpec(s: string)
    ensures var r := TrimStart(s);
      && |r| <= |s| && r == s[|s| - |r|..]
      && (forall i :: 0 <= i < |s| - |r| ==> IsSpace(s[i]))
      && (r == [] || !IsSpace(r[0]))
  {
    if s != [] && IsSpace(s[0]) {
      TrimStartSpec(s[1..]);
      var r := TrimStart(s[1..]);
      assert s[1..][|s| - 1 - |r|..] == s[|s| - |r|..];
      forall i | 0 <= i < |s| - |r| ensures IsSpace(s[i]) {
        if i > 0 {
          assert s[i] == s[1..][i - 1];
        }
      }
    }
  }

  /** rstrip drops a run of trailing whitespace and no more. */
  lemma {:induction false} TrimEndSpec(s: string)
    ensures var r := TrimEnd(s);
      && |r| <= |s| && r == s[..|r|]
      && (forall i :: |r| <= i < |s| ==> IsSpace(s[i]))
      && (r == [] || !IsSpace(r[|r| - 1]))
  {
    if s != [] && IsSpace(s[|s| - 1]) {
      TrimEndSpec(s[..|s| - 1]);
      var r := TrimEnd(s[..|s| - 1]);
      assert s[..|s| - 1][..|r|] == s[..|r|];
      forall i | |r| <= i < |s| ensures IsSpace(s[i]) {
        if i < |s| - 1 {
          assert s[i] == s[..|s| - 1][i];
        }
      }
    }
  }

  /** Stripping only removes characters. */
  lemma StripMember(s: string)
    ensures forall x :: x in Strip(s) ==> x in s
  {
    var t := TrimStart(s);
    TrimStartSpec(s);
    TrimEndSpec(t);
    assert forall x :: x in t ==> x in s;
    assert forall x :: x in TrimEnd(t) ==> x in t;
  }

  /** s.startswith(prefix) */
  predicate StartsWith(s: string, prefix: string)
  {
    |prefix| <= |s| && s[..|prefix|] == prefix
  }

  /** `sub in s` */
  predicate Contains(s: string, sub: string)
    decreases |s|
  {
    StartsWith(s, sub) || (s != [] && Contains(s[1..], sub))
  }

  /** For a one-character pattern, `c in s` is plain membership. */
  lemma {:induction false} ContainsChar(s: string, c: char)
    ensures Contains(s, [c]) <==> c in s
  {
    if s != [] {
      ContainsChar(s[1..], c);
      assert s == [s[0]] + s[1..];
    }
  }

  /** A text that contains sub contains every character of sub. */
  lemma {:induction false} ContainsMember(s: string, sub: string, c: char)
    requires Contains(s, sub) && c in sub
    ensures c in s
    decreases |s|
  {
    if StartsWith(s, sub) {
      assert s[..|sub|] == sub;
    } else {
      ContainsMember(s[1..], sub, c);
    }
  }

  function UpperChar(c: char): char
  {
    if 'a' <= c <= 'z' then (c as int - 32) as char else c
  }

  function LowerChar(c: char): char
  {
    if 'A' <= c <= 'Z' then (c as int + 32) as char else c
  }

  /** s.upper() */
  function Upper(s: string): string
  {
    seq(|s|, i requires 0 <= i < |s| => UpperChar(s[i]))
  }

  /** s.lower() */
  function Lower(s: string): string
  {
    seq(|s|, i requires 0 <= i < |s| => LowerChar(s[i]))
  }

  /** "".join(m[c] for c in s): every character looked up in m, or the
      KeyError of the first character m does not map. */
  function MapChars(m: map<char, char>, s: string): Result<string>
  {
    if forall i :: 0 <= i < |s| ==> s[i] in m
    then Ok(seq(|s|, i requires 0 <= i < |s| => m[s[i]]))
    else Err(UnmappedCharacter)
  }

  /** s.replace(c, "") for one character c. */
  function RemoveChar(s: string, c: char): (r: string)
    ensures forall x :: x in r <==> x in s && x != c
  {
    if s == [] then []
    else
      assert forall x :: x in s <==> x == s[0] || x in s[1..];
      (if s[0] == c then [] else [s[0]]) + RemoveChar(s[1..], c)
  }

  /** s.replace(pattern, ""): occurrences are removed left to right,
      without overlap, in a single pass. */
  function RemoveAll(s: string, pattern: string): (r: string)
    requires pattern != []
    ensures |r| <= |s|
    decreases |s|
  {
    if s == [] then []
    else if StartsWith(s, pattern) then RemoveAll(s[|pattern|..], pattern)
    else [s[0]] + RemoveAll(s[1..], pattern)
  }

  /** Removing a pattern adds no character. */
  lemma {:induction false} RemoveAllMember(s: string, pattern: string)
    requires pattern != []
    ensures forall x :: x in RemoveAll(s, pattern) ==> x in s
    decreases |s|
  {
    if s != [] {
      if StartsWith(s, pattern) {
        RemoveAllMember(s[|pattern|..], pattern);
        assert forall x :: x in s[|pattern|..] ==> x in s;
      } else {
        RemoveAllMember(s[1..], pattern);
        assert forall x :: x in s[1..] ==> x in s;
      }
    }
  }

  /** Text in which no occurrence of the pattern starts is kept as it is. */
  lemma {:induction false} RemoveAllKeeps(a: string, b: string, pattern: string)
    requires pattern != []
    requires forall j :: 0 <= j < |a| ==> !StartsWith((a + b)[j..], pattern)
    ensures RemoveAll(a + b, pattern) == a + RemoveAll(b, pattern)
    decreases |a|
  {
    if a != [] {
      var s := a + b;
      assert !StartsWith(s[0..], pattern);
      assert s[0..] == s;
      assert s[1..] == a[1..] + b;
      forall j | 0 <= j < |a| - 1 ensures !StartsWith((a[1..] + b)[j..], pattern) {
        assert (a[1..] + b)[j..] == s[j + 1..];
      }
      RemoveAllKeeps(a[1..], b, pattern);
      var head, tail, rest := [a[0]], a[1..], RemoveAll(b, pattern);
      assert RemoveAll(s, pattern) == head + (tail + rest);
      assert head + (tail + rest) == (head + tail) + rest;
      assert head + tail == a;
    } else {
      assert a + b == b;
      assert a + RemoveAll(b, pattern) == RemoveAll(b, pattern);
    }
  }

  /** replace keeps the text before the first occurrence, drops that
      occurrence and carries on after it. */
  lemma RemoveAllFirst(a: string, b: string, pattern: string)
    requires pattern != []
    requires forall j :: 0 <= j < |a| ==> !StartsWith((a + pattern + b)[j..], pattern)
    ensures RemoveAll(a + pattern + b, pattern) == a + RemoveAll(b, pattern)
  {
    var rest := pattern + b;
    assert a + pattern + b == a + rest;
    RemoveAllKeeps(a, rest, pattern);
    assert StartsWith(rest, pattern);
    assert rest[|pattern|..] == b;
  }

  /** Removing a pattern that does not occur leaves the text unchanged. */
  lemma {:induction false} RemoveAllAbsent(s: string, pattern: string)
    requires pattern != [] && !Contains(s, pattern)
    ensures RemoveAll(s, pattern) == s
  {
    if s != [] {
      RemoveAllAbsent(s[1..], pattern);
    }
  }

  /** s.split(sep)[0]: everything before the first sep, or all of s. */
  function BeforeFirst(s: string, sep: char): (r: string)
    ensures StartsWith(s, r) && sep !in r
    ensures |r| == |s| || s[|r|] == sep
  {
    if s == [] || s[0] == sep then [] else [s[0]] + BeforeFirst(s[1..], sep)
  }

  /** The text before a separator that ends or cuts x, with none in x, is x. */
  lemma {:induction false} BeforeFirstOf(x: string, rest: string, sep: char)
    requires sep !in x && (rest == [] || rest[0] == sep)
    ensures BeforeFirst(x + rest, sep) == x
  {
    if x != [] {
      BeforeFirstOf(x[1..], rest, sep);
      assert (x + rest)[1..] == x[1..] + rest;
    }
  }

  /** The index of the first c in s (s.index(c)). */
  function IndexOf(s: string, c: char): (k: nat)
    requires c in s
    ensures k < |s| && s[k] == c && c !in s[..k]
  {
    if s[0] == c then 0
    else
      var k := 1 + IndexOf(s[1..], c);
      assert s[..k] == [s[0]] + s[1..][..k - 1];
      k
  }

  /** s.split(sep)[1]: the text between the first and the second sep, or the
      IndexError raised when sep does not occur. */
  function SecondField(s: string, sep: char): (r: Result<string>)
    ensures r.Ok? <==> sep in s
    ensures r.Ok? ==> sep !in r.value
    ensures r.Ok? ==> r.value == BeforeFirst(s[IndexOf(s, sep) + 1..], sep)
  {
    if s == [] then Err(MissingField)
    else if s[0] == sep then Ok(BeforeFirst(s[1..], sep))
    else if sep in s[1..] then
      var k := IndexOf(s[1..], sep);
      assert IndexOf(s, sep) == k + 1;
      assert s[k + 2..] == s[1..][k + 1..];
      SecondField(s[1..], sep)
    else
      SecondField(s[1..], sep)
  }

  /** s.count(c) for one character c. */
  function Count(s: string, c: char): nat
  {
    if s == [] then 0 else Count(s[..|s| - 1], c) + (if s[|s| - 1] == c then 1 else 0)
  }

  /** Two distinct characters occur at most |s| times together. */
  lemma {:induction false} CountPairBound(s: string, c: char, d: char)
    requires c != d
    ensures Count(s, c) + Count(s, d) <= |s|
  {
    if s != [] {
      CountPairBound(s[..|s| - 1], c, d);
    }
  }

  /** A string made only of c and d holds |s| of them together. */
  lemma {:induction false} CountPairExact(s: string, c: char, d: char)
    requires c != d
    requires forall i :: 0 <= i < |s| ==> s[i] == c || s[i] == d
    ensures Count(s, c) + Count(s, d) == |s|
  {
    if s != [] {
      CountPairExact(s[..|s| - 1], c, d);
    }
  }

  lemma {:induction false} CountAbsent(s: string, c: char)
    requires forall i :: 0 <= i < |s| ==> s[i] != c
    ensures Count(s, c) == 0
  {
    if s != [] {
      CountAbsent(s[..|s| - 1], c);
    }
  }

  /** Python's `a <= b` on strings: lexicographic by code point. */
  predicate LexLe(a: string, b: string)
    decreases |a|
  {
    a == [] || (b != [] && (a[0] < b[0] || (a[0] == b[0] && LexLe(a[1..], b[1..]))))
  }

  lemma {:induction false} LexLeTotal(a: string, b: string)
    ensures LexLe(a, b) || LexLe(b, a)
    decreases |a|
  {
    if a != [] && b != [] && a[0] == b[0] {
      LexLeTotal(a[1..], b[1..]);
    }
  }

  lemma {:induction false} LexLeTransitive(a: string, b: string, c: string)
    requires LexLe(a, b) && LexLe(b, c)
    ensures LexLe(a, c)
    decreases |a|
  {
    if a != [] && a[0] == b[0] && b[0] == c[0] {
      LexLeTransitive(a[1..], b[1..], c[1..]);
    }
  }
}
