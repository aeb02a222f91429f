/** The string primitives the dashboard relies on: String.prototype.trim,
    toLowerCase, includes, split on a one-character separator, and
    Array.prototype.join. Strings are sequences of Unicode scalar values. */
module Text {

  /** The characters String.prototype.trim removes: the WhiteSpace and
      LineTerminator code points of ECMA-262 (sections 12.2 and 12.3). */
  predicate IsWhitespace(c: char)
  {
    || c == '\t' || c == '\n' || c == '\U{000B}' || c == '\U{000C}' || c == '\r'
    || c == ' ' || c == '\U{00A0}' || c == '\U{1680}'
    || ('\U{2000}' <= c <= '\U{200A}')
    || c == '\U{2028}' || c == '\U{2029}' || c == '\U{202F}' || c == '\U{205F}'
    || c == '\U{3000}' || c == '\U{FEFF}'
  }

  /** Neither the first nor the last character is whitespace. */
  predicate Trimmed(s: string)
  {
    s == [] || (!IsWhitespace(s[0]) && !IsWhitespace(s[|s| - 1]))
  }

  /** s with its leading whitespace removed. */
  function TrimStart(s: string): (r: string)
    ensures |r| <= |s| && r == s[|s| - |r|..]
    ensures forall i :: 0 <= i < |s| - |r| ==> IsWhitespace(s[i])
    ensures r == [] || !IsWhitespace(r[0])
  {
    if s != [] && IsWhitespace(s[0]) then TrimStart(s[1..]) else s
  }

  /** s with its trailing whitespace removed. */
  function TrimEnd(s: string): (r: string)
    ensures |r| <= |s| && r == s[..|r|]
    ensures forall i :: |r| <= i < |s| ==> IsWhitespace(s[i])
    ensures r == [] || !IsWhitespace(r[|r| - 1])
  {
    if s != [] && IsWhitespace(s[|s| - 1]) then TrimEnd(s[..|s| - 1]) else s
  }

  /** String.prototype.trim. Trimmed and PaddedAt fix the result; the length
      and character clauses are corollaries kept for callers. */
  function Trim(s: string): (r: string)
    ensures Trimmed(r)
    ensures |r| <= |s|
    ensures forall c :: c in r ==> c in s
    ensures r == [] <==> forall i :: 0 <= i < |s| ==> IsWhitespace(s[i])
    ensures exists k :: PaddedAt(s, r, k)
  {
    var t := TrimStart(s);
    var r := TrimEnd(t);
    assert r != [] ==> !IsWhitespace(r[0]) by {
      if r != [] {
        assert r[0] == t[0];
      }
    }
    assert forall c :: c in r ==> c in t;
    assert forall c :: c in t ==> c in s;
    TrimEndOfTrimStart(s, t, r);
    r
  }

  /** s is r with k whitespace characters in front and only whitespace
      after: r is the contiguous middle of s. */
  predicate PaddedAt(s: string, r: string, k: int)
  {
    && 0 <= k <= |s| - |r|
    && r == s[k..k + |r|]
    && (forall i :: 0 <= i < k ==> IsWhitespace(s[i]))
    && (forall i :: k + |r| <= i < |s| ==> IsWhitespace(s[i]))
  }

  /** Trimming the end after trimming the start leaves a middle slice of s. */
  lemma TrimEndOfTrimStart(s: string, t: string, r: string)
    requires t == TrimStart(s) && r == TrimEnd(t)
    ensures PaddedAt(s, r, |s| - |t|)
  {
    MiddleSlice(s, t, r);
  }

  /** A prefix of a suffix is a slice, padded by what the two cuts removed. */
  lemma MiddleSlice(s: string, t: string, r: string)
    requires |t| <= |s| && t == s[|s| - |t|..]
    requires forall i :: 0 <= i < |s| - |t| ==> IsWhitespace(s[i])
    requires |r| <= |t| && r == t[..|r|]
    requires forall i :: |r| <= i < |t| ==> IsWhitespace(t[i])
    ensures PaddedAt(s, r, |s| - |t|)
  {
    var k := |s| - |t|;
    assert r == s[k..k + |r|] by {
      forall j | 0 <= j < |r|
        ensures r[j] == s[k + j]
      {
        assert r[j] == t[j];
        assert t[j] == s[k + j];
      }
    }
    forall i | k + |r| <= i < |s|
      ensures IsWhitespace(s[i])
    {
      assert s[i] == t[i - k];
    }
  }

  /** Trimming a string that is already trimmed changes nothing. */
  lemma TrimOfTrimmed(s: string)
    requires Trimmed(s)
    ensures Trim(s) == s
  {
    assert TrimStart(s) == s;
  }

  /** Leading whitespace in front of a trimmed string is all that trim removes. */
  lemma {:induction false} TrimLeadingWhitespace(w: string, s: string)
    requires forall i :: 0 <= i < |w| ==> IsWhitespace(w[i])
    requires s != [] && Trimmed(s)
    ensures Trim(w + s) == s
  {
    if w == [] {
      assert w + s == s;
      TrimOfTrimmed(s);
    } else {
      assert (w + s)[1..] == w[1..] + s;
      TrimLeadingWhitespace(w[1..], s);
    }
  }

  /** ASCII lower-casing of one character. */
  function LowerChar(c: char): char
  {
    if 'A' <= c <= 'Z' then (c as int + 32) as char else c
  }

  /** String.prototype.toLowerCase, restricted to the ASCII letters: no
      upper-case ASCII letter is left, and a character changes only when it
      is one, into its lower-case partner. */
  function Lower(s: string): (r: string)
    ensures |r| == |s|
    ensures forall i :: 0 <= i < |r| ==> !('A' <= r[i] <= 'Z')
    ensures forall i :: 0 <= i < |r| && r[i] != s[i] ==>
      'A' <= s[i] <= 'Z' && r[i] as int == s[i] as int + 32
  {
    seq(|s|, i requires 0 <= i < |s| => LowerChar(s[i]))
  }

  /** Lower-casing is idempotent and keeps the length. */
  lemma LowerIdempotent(s: string)
    ensures |Lower(s)| == |s|
    ensures Lower(Lower(s)) == Lower(s)
  {
  }

  /** needle occurs in hay starting at position i. */
  predicate OccursAt(hay: string, needle: string, i: int)
  {
    0 <= i && i + |needle| <= |hay| && hay[i..i + |needle|] == needle
  }

  /** String.prototype.includes: needle is a prefix of hay or of one of its
      suffixes. */
  predicate Contains(hay: string, needle: string): (b: bool)
    ensures needle <= hay ==> b
    ensures b ==> |needle| <= |hay|
    decreases |hay|
  {
    needle <= hay || (hay != [] && Contains(hay[1..], needle))
  }

  /** An occurrence in the tail of hay is an occurrence in hay, one further on. */
  lemma OccursShift(hay: string, needle: string, i: int)
    requires hay != [] && OccursAt(hay[1..], needle, i)
    ensures OccursAt(hay, needle, i + 1)
  {
    assert hay[1..][i..i + |needle|] == hay[i + 1..i + 1 + |needle|];
  }

  /** An occurrence past the first position is an occurrence in the tail. */
  lemma OccursUnshift(hay: string, needle: string, i: int)
    requires i >= 1 && OccursAt(hay, needle, i)
    ensures OccursAt(hay[1..], needle, i - 1)
  {
    assert hay[1..][i - 1..i - 1 + |needle|] == hay[i..i + |needle|];
  }

  /** An occurrence at any position makes includes hold. */
  lemma {:induction false} ContainsFromOccurs(hay: string, needle: string, i: int)
    requires OccursAt(hay, needle, i)
    ensures Contains(hay, needle)
    decreases |hay|
  {
    if i == 0 {
      assert hay[..|needle|] == needle;
    } else {
      OccursUnshift(hay, needle, i);
      ContainsFromOccurs(hay[1..], needle, i - 1);
    }
  }

  /** When includes holds, the needle occurs at some position. */
  lemma {:induction false} OccursFromContains(hay: string, needle: string)
    requires Contains(hay, needle)
    ensures exists i :: OccursAt(hay, needle, i)
    decreases |hay|
  {
    if needle <= hay {
      assert OccursAt(hay, needle, 0);
    } else {
      OccursFromContains(hay[1..], needle);
      var i :| OccursAt(hay[1..], needle, i);
      OccursShift(hay, needle, i);
    }
  }

  /** includes holds exactly when needle occurs at some position of hay. */
  lemma ContainsIffOccurs(hay: string, needle: string)
    ensures Contains(hay, needle) <==> exists i :: OccursAt(hay, needle, i)
  {
    if Contains(hay, needle) {
      OccursFromContains(hay, needle);
    }
    if exists i :: OccursAt(hay, needle, i) {
      var i :| OccursAt(hay, needle, i);
      ContainsFromOccurs(hay, needle, i);
    }
  }

  /** Every string contains the empty string. */
  lemma {:induction false} ContainsEmpty(hay: string)
    ensures Contains(hay, [])
  {
  }

  /** String.prototype.split with a one-character separator: the pieces
      between consecutive separators, in order. */
  function Split(s: string, sep: char): (parts: seq<string>)
    ensures |parts| == multiset(s)[sep] + 1
    ensures forall i :: 0 <= i < |parts| ==> sep !in parts[i]
  {
    if s == [] then [[]]
    else
      var rest := Split(s[1..], sep);
      assert s == [s[0]] + s[1..];
      assert multiset(s) == multiset{s[0]} + multiset(s[1..]);
      if s[0] == sep then [[]] + rest
      else [[s[0]] + rest[0]] + rest[1..]
  }

  /** How often c occurs in the parts altogether. */
  function CountIn(parts: seq<string>, c: char): nat
  {
    if parts == [] then 0 else multiset(parts[0])[c] + CountIn(parts[1..], c)
  }

  /** Array.prototype.join: the parts with sep between consecutive ones. No
      parts give the empty string; otherwise the first part starts the
      result and its length is that of the parts plus one separator per gap. */
  function Join(parts: seq<string>, sep: string): (r: string)
    ensures |parts| == 0 ==> r == []
    ensures |parts| >= 1 ==> parts[0] <= r
    ensures |parts| >= 1 ==> |r| == TotalLength(parts) + (|parts| - 1) * |sep|
  {
    if |parts| == 0 then []
    else if |parts| == 1 then parts[0]
    else parts[0] + sep + Join(parts[1..], sep)
  }

  /** The summed length of the parts. */
  function TotalLength(parts: seq<string>): nat
  {
    if parts == [] then 0 else |parts[0]| + TotalLength(parts[1..])
  }

  /** Every character of a join occurs as often as in the parts plus once
      per occurrence in the separator for each of the |parts| - 1 gaps. */
  lemma {:induction false} JoinCount(parts: seq<string>, sep: string)
    requires |parts| >= 1
    ensures forall c :: multiset(Join(parts, sep))[c] == CountIn(parts, c) + (|parts| - 1) * multiset(sep)[c]
  {
    if |parts| >= 2 {
      JoinCount(parts[1..], sep);
      JoinCountStep(parts, sep, Join(parts[1..], sep));
    }
  }

  /** A character no part holds is counted zero times. */
  lemma {:induction false} CountInAbsent(parts: seq<string>, c: char)
    requires forall i :: 0 <= i < |parts| ==> c !in parts[i]
    ensures CountIn(parts, c) == 0
  {
    if parts != [] {
      CountInAbsent(parts[1..], c);
    }
  }

  /** The character count of one join step. */
  lemma JoinCountStep(parts: seq<string>, sep: string, rest: string)
    requires |parts| >= 2
    requires forall c :: multiset(rest)[c] == CountIn(parts[1..], c) + (|parts| - 2) * multiset(sep)[c]
    ensures forall c :: multiset(parts[0] + sep + rest)[c] == CountIn(parts, c) + (|parts| - 1) * multiset(sep)[c]
  {
    var r := parts[0] + sep + rest;
    assert multiset(r) == multiset(parts[0]) + multiset(sep) + multiset(rest);
    forall c
      ensures multiset(r)[c] == CountIn(parts, c) + (|parts| - 1) * multiset(sep)[c]
    {
      var m := multiset(sep)[c];
      assert (|parts| - 1) * m == (|parts| - 2) * m + m;
    }
  }

  /** Joining a non-empty list after a first element. */
  lemma JoinCons(head: string, rest: seq<string>, sep: string)
    requires |rest| >= 1
    ensures Join([head] + rest, sep) == head + sep + Join(rest, sep)
  {
    assert ([head] + rest)[1..] == rest;
  }

  /** Prefixing the first part with a character prefixes the join with it. */
  lemma JoinPrependChar(c: char, parts: seq<string>, sep: string)
    requires |parts| >= 1
    ensures Join([[c] + parts[0]] + parts[1..], sep) == [c] + Join(parts, sep)
  {
    if |parts| > 1 {
      JoinCons([c] + parts[0], parts[1..], sep);
      JoinCons(parts[0], parts[1..], sep);
      assert [parts[0]] + parts[1..] == parts;
    }
  }

  /** One step of JoinSplit, when the string starts with the separator. */
  lemma JoinSplitAtSeparator(s: string, sep: char)
    requires s != [] && s[0] == sep
    requires Join(Split(s[1..], sep), [sep]) == s[1..]
    ensures Join(Split(s, sep), [sep]) == s
  {
    var rest := Split(s[1..], sep);
    assert Split(s, sep) == [[]] + rest;
    JoinCons([], rest, [sep]);
    assert s == [] + [sep] + s[1..];
  }

  /** One step of JoinSplit, when the string starts with another character. */
  lemma JoinSplitAtOther(s: string, sep: char)
    requires s != [] && s[0] != sep
    requires Join(Split(s[1..], sep), [sep]) == s[1..]
    ensures Join(Split(s, sep), [sep]) == s
  {
    var rest := Split(s[1..], sep);
    assert Split(s, sep) == [[s[0]] + rest[0]] + rest[1..];
    JoinPrependChar(s[0], rest, [sep]);
    assert s == [s[0]] + s[1..];
  }

  /** Joining the pieces of a split with the separator restores the string. */
  lemma {:induction false} JoinSplit(s: string, sep: char)
    ensures Join(Split(s, sep), [sep]) == s
  {
    if s != [] {
      JoinSplit(s[1..], sep);
      if s[0] == sep {
        JoinSplitAtSeparator(s, sep);
      } else {
        JoinSplitAtOther(s, sep);
      }
    }
  }

  /** A string without the separator splits into itself. */
  lemma {:induction false} SplitWithoutSeparator(a: string, sep: char)
    requires sep !in a
    ensures Split(a, sep) == [a]
  {
    if a != [] {
      SplitWithoutSeparator(a[1..], sep);
      assert [a[0]] + a[1..] == a;
    }
  }

  /** The first separator ends the first piece. */
  lemma {:induction false} SplitAtFirstSeparator(a: string, sep: char, b: string)
    requires sep !in a
    ensures Split(a + [sep] + b, sep) == [a] + Split(b, sep)
  {
    if a == [] {
      assert a + [sep] + b == [sep] + b;
      assert ([sep] + b)[1..] == b;
    } else {
      assert (a + [sep] + b)[1..] == a[1..] + [sep] + b;
      SplitAtFirstSeparator(a[1..], sep, b);
      assert [a[0]] + a[1..] == a;
    }
  }

  /** Splitting a join of separator-free pieces recovers the pieces. */
  lemma {:induction false} SplitJoin(parts: seq<string>, sep: char)
    requires |parts| >= 1
    requires forall i :: 0 <= i < |parts| ==> sep !in parts[i]
    ensures Split(Join(parts, [sep]), sep) == parts
  {
    if |parts| == 1 {
      SplitWithoutSeparator(parts[0], sep);
    } else {
      assert parts == [parts[0]] + parts[1..];
      JoinCons(parts[0], parts[1..], [sep]);
      SplitJoin(parts[1..], sep);
      SplitAtFirstSeparator(parts[0], sep, Join(parts[1..], [sep]));
    }
  }
}
