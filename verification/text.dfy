/**
 * The Python string operations the updater script relies on, on `string`
 * (a sequence of Unicode scalar values): `str.split('\n')`, `'\n'.join`,
 * the substring test `in`, `startswith`, `strip()` and the universal-newline
 * translation that a text-mode `read()` applies.
 */
module Text {

  /** `m` occurs in `s` starting at index `i`. */
  predicate OccursAt(s: string, m: string, i: int)
  {
    0 <= i && i + |m| <= |s| && s[i..i + |m|] == m
  }

  /** Python's `m in s` for strings. */
  predicate Contains(s: string, m: string)
  {
    exists i | 0 <= i <= |s| :: OccursAt(s, m, i)
  }

  /** Python's `s.startswith(m)`. */
  predicate StartsWith(s: string, m: string)
  {
    |m| <= |s| && s[..|m|] == m
  }

  /** Python's `'\n'.join(parts)`. */
  function Join(parts: seq<string>): string
  {
    if |parts| == 0 then ""
    else if |parts| == 1 then parts[0]
    else parts[0] + "\n" + Join(parts[1..])
  }

  /**
   * Python's `s.split('\n')`: always at least one piece, and no piece holds
   * a line break.
   */
  function Split(s: string): (lines: seq<string>)
    ensures |lines| >= 1
    ensures forall k :: 0 <= k < |lines| ==> '\n' !in lines[k]
  {
    if |s| == 0 then [""]
    else if s[0] == '\n' then [""] + Split(s[1..])
    else
      var rest := Split(s[1..]);
      [[s[0]] + rest[0]] + rest[1..]
  }

  /** The characters for which Python's `str.isspace()` holds. */
  predicate IsSpace(c: char)
  {
    ('\U{9}' <= c <= '\U{D}') || ('\U{1C}' <= c <= ' ') ||
    c == '\U{85}' || c == '\U{A0}' || c == '\U{1680}' ||
    ('\U{2000}' <= c <= '\U{200A}') || c == '\U{2028}' || c == '\U{2029}' ||
    c == '\U{202F}' || c == '\U{205F}' || c == '\U{3000}'
  }

  /** Python's `s.lstrip()`. */
  function TrimLeft(s: string): string
  {
    if |s| > 0 && IsSpace(s[0]) then TrimLeft(s[1..]) else s
  }

  /** Python's `s.rstrip()`. */
  function TrimRight(s: string): string
  {
    if |s| > 0 && IsSpace(s[|s| - 1]) then TrimRight(s[..|s| - 1]) else s
  }

  /** Python's `s.strip()`. */
  function Strip(s: string): string
  {
    TrimRight(TrimLeft(s))
  }

  /**
   * The text that a Python text-mode `read()` (newline=None) returns for the
   * characters `s` on disk: "\r\n" and a lone "\r" both read as "\n".
   */
  function ReadTranslated(s: string): (r: string)
    ensures '\r' !in r
    ensures |r| <= |s|
  {
    if |s| == 0 then ""
    else if s[0] == '\r' then
      "\n" + ReadTranslated(if |s| >= 2 && s[1] == '\n' then s[2..] else s[1..])
    else [s[0]] + ReadTranslated(s[1..])
  }

  // ---------------------------------------------------------------------
  // Splitting and joining lines

  /** Joining the pieces of a split gives back the original text. */
  lemma {:induction false} JoinOfSplit(s: string)
    ensures Join(Split(s)) == s
  {
    if |s| > 0 {
      JoinOfSplit(s[1..]);
      var rest := Split(s[1..]);
      if s[0] != '\n' && |rest| > 1 {
        assert Join(rest) == rest[0] + "\n" + Join(rest[1..]);
        assert ([[s[0]] + rest[0]] + rest[1..])[1..] == rest[1..];
      }
      assert s == [s[0]] + s[1..];
    }
  }

  /** A text without a line break splits into itself alone. */
  lemma {:induction false} SplitWithoutBreak(a: string)
    requires '\n' !in a
    ensures Split(a) == [a]
  {
    if |a| > 0 {
      SplitWithoutBreak(a[1..]);
      assert [a[0]] + a[1..] == a;
    }
  }

  /** Splitting at the first line break yields the line before it, then the rest. */
  lemma {:induction false} SplitAtFirstBreak(a: string, b: string)
    requires '\n' !in a
    ensures Split(a + "\n" + b) == [a] + Split(b)
  {
    var s := a + "\n" + b;
    if |a| == 0 {
      assert s == "\n" + b && s[1..] == b;
    } else {
      assert s[0] == a[0] && s[1..] == a[1..] + "\n" + b;
      SplitAtFirstBreak(a[1..], b);
      assert [a[0]] + a[1..] == a;
    }
  }

  /** Splitting a join of break-free lines, followed by a break and more text. */
  lemma {:induction false} SplitJoinThen(lines: seq<string>, rest: string)
    requires |lines| >= 1
    requires forall k :: 0 <= k < |lines| ==> '\n' !in lines[k]
    ensures Split(Join(lines) + "\n" + rest) == lines + Split(rest)
  {
    if |lines| == 1 {
      SplitAtFirstBreak(lines[0], rest);
    } else {
      var tail := lines[1..];
      var after := Join(tail) + "\n" + rest;
      assert lines == [lines[0]] + tail;
      assert Join(lines) + "\n" + rest == lines[0] + "\n" + after by {
        JoinCons(lines[0], tail);
      }
      calc {
        Split(Join(lines) + "\n" + rest);
        Split(lines[0] + "\n" + after);
        { SplitAtFirstBreak(lines[0], after); }
        [lines[0]] + Split(after);
        { SplitJoinThen(tail, rest); }
        [lines[0]] + (tail + Split(rest));
        lines + Split(rest);
      }
    }
  }

  lemma JoinCons(head: string, tail: seq<string>)
    requires |tail| >= 1
    ensures Join([head] + tail) == head + "\n" + Join(tail)
  {
    assert ([head] + tail)[1..] == tail;
  }

  /** Splitting a join of break-free lines gives the lines back. */
  lemma {:induction false} SplitOfJoin(lines: seq<string>)
    requires |lines| >= 1
    requires forall k :: 0 <= k < |lines| ==> '\n' !in lines[k]
    ensures Split(Join(lines)) == lines
  {
    if |lines| == 1 {
      SplitWithoutBreak(lines[0]);
    } else {
      SplitJoinThen([lines[0]], Join(lines[1..]));
      SplitOfJoin(lines[1..]);
      assert [lines[0]] + lines[1..] == lines;
    }
  }

  /** A join breaks into the join of a non-empty prefix, a line break and the join of the rest. */
  lemma {:induction false} JoinAt(lines: seq<string>, k: nat)
    requires 0 < k < |lines|
    ensures Join(lines) == Join(lines[..k]) + "\n" + Join(lines[k..])
  {
    if k > 1 {
      JoinAt(lines[1..], k - 1);
      assert lines[1..][..k - 1] == lines[..k][1..];
      assert lines[1..][k - 1..] == lines[k..];
    } else {
      assert lines[1..] == lines[k..];
    }
  }

  /** Every character of a split piece comes from the split text. */
  lemma {:induction false} SplitCharacters(s: string, k: nat, c: char)
    requires k < |Split(s)| && c in Split(s)[k]
    ensures c in s
  {
    if |s| > 0 {
      var rest := Split(s[1..]);
      if s[0] == '\n' {
        assert Split(s)[k] == rest[k - 1];
        SplitCharacters(s[1..], k - 1, c);
      } else if k == 0 && c !in rest[0] {
        assert c == s[0];
      } else {
        SplitCharacters(s[1..], k, c);
      }
    }
  }

  /** A character of a join is a line break or a character of one of the lines. */
  lemma {:induction false} JoinCharacters(lines: seq<string>, c: char)
    requires c in Join(lines)
    ensures c == '\n' || exists k :: 0 <= k < |lines| && c in lines[k]
  {
    if |lines| > 1 {
      var rest := Join(lines[1..]);
      assert Join(lines) == lines[0] + "\n" + rest;
      if c in rest {
        JoinCharacters(lines[1..], c);
        if c != '\n' {
          var k :| 0 <= k < |lines| - 1 && c in lines[1..][k];
          assert c in lines[k + 1];
        }
      }
    }
  }

  // ---------------------------------------------------------------------
  // Substrings

  /** An occurrence of a break-free pattern lies entirely on one side of a line break. */
  lemma ContainsAcrossBreak(a: string, b: string, m: string)
    requires '\n' !in m
    ensures Contains(a + "\n" + b, m) <==> Contains(a, m) || Contains(b, m)
  {
    var s := a + "\n" + b;
    if Contains(s, m) {
      var i :| 0 <= i <= |s| && OccursAt(s, m, i);
      assert s[|a|] == '\n';
      assert forall j :: i <= j < i + |m| ==> s[j] == m[j - i];
      if i + |m| <= |a| {
        assert s[i..i + |m|] == a[i..i + |m|];
        assert OccursAt(a, m, i);
      } else if i > |a| {
        assert s[i..i + |m|] == b[i - |a| - 1..i - |a| - 1 + |m|];
        assert OccursAt(b, m, i - |a| - 1);
      } else {
        assert false;
      }
    }
    if Contains(a, m) {
      var i :| 0 <= i <= |a| && OccursAt(a, m, i);
      assert s[i..i + |m|] == a[i..i + |m|];
      assert OccursAt(s, m, i);
    }
    if Contains(b, m) {
      var i :| 0 <= i <= |b| && OccursAt(b, m, i);
      var j := |a| + 1 + i;
      assert s[|a| + 1..] == b;
      assert s[j..j + |m|] == s[|a| + 1..][i..i + |m|];
      assert OccursAt(s, m, j);
    }
  }

  /** A break-free pattern occurs in joined lines iff it occurs in one of the lines. */
  lemma {:induction false} ContainsInJoin(lines: seq<string>, m: string)
    requires |lines| >= 1 && '\n' !in m
    ensures Contains(Join(lines), m) <==> exists k :: 0 <= k < |lines| && Contains(lines[k], m)
  {
    if |lines| > 1 {
      ContainsAcrossBreak(lines[0], Join(lines[1..]), m);
      ContainsInJoin(lines[1..], m);
      if Contains(Join(lines[1..]), m) {
        var k :| 0 <= k < |lines| - 1 && Contains(lines[1..][k], m);
        assert Contains(lines[k + 1], m);
      }
      if exists k :: 0 <= k < |lines| && Contains(lines[k], m) {
        var k :| 0 <= k < |lines| && Contains(lines[k], m);
        if k > 0 {
          assert Contains(lines[1..][k - 1], m);
        }
      }
    }
  }

  /** A pattern cannot occur in a text that lacks one of its characters. */
  lemma MissingCharacter(s: string, m: string, k: nat)
    requires k < |m| && m[k] !in s
    ensures !Contains(s, m)
  {
  }

  /** `TrimLeft` cuts off exactly the leading whitespace: what is left is a suffix. */
  lemma {:induction false} TrimLeftShape(s: string)
    ensures |TrimLeft(s)| <= |s| && TrimLeft(s) == s[|s| - |TrimLeft(s)|..]
    ensures forall k :: 0 <= k < |s| - |TrimLeft(s)| ==> IsSpace(s[k])
    ensures TrimLeft(s) == "" || !IsSpace(TrimLeft(s)[0])
  {
    if |s| > 0 && IsSpace(s[0]) {
      TrimLeftShape(s[1..]);
      assert forall k :: 1 <= k < |s| ==> s[k] == s[1..][k - 1];
    }
  }

  /** `TrimRight` cuts off exactly the trailing whitespace: what is left is a prefix. */
  lemma {:induction false} TrimRightShape(s: string)
    ensures |TrimRight(s)| <= |s| && TrimRight(s) == s[..|TrimRight(s)|]
    ensures forall k :: |TrimRight(s)| <= k < |s| ==> IsSpace(s[k])
    ensures TrimRight(s) == "" || !IsSpace(TrimRight(s)[|TrimRight(s)| - 1])
  {
    if |s| > 0 && IsSpace(s[|s| - 1]) {
      TrimRightShape(s[..|s| - 1]);
      assert forall k :: 0 <= k < |s| - 1 ==> s[k] == s[..|s| - 1][k];
    }
  }

  /**
   * A pattern cannot occur in `p + tail` when its `k`-th character is
   * missing from `p` and `tail` is too short to hold the pattern from that
   * character on.
   */
  lemma MissingCharacterBeforeTail(p: string, tail: string, m: string, k: nat)
    requires k < |m| && m[k] !in p && |tail| < |m| - k
    ensures !Contains(p + tail, m)
  {
  }

  /** A line whose stripped form starts with `m` contains `m`. */
  lemma StrippedPrefixContained(s: string, m: string)
    requires StartsWith(Strip(s), m)
    ensures Contains(s, m)
  {
    var t := TrimLeft(s);
    TrimLeftShape(s);
    TrimRightShape(t);
    var i := |s| - |t|;
    assert Strip(s) == t[..|Strip(s)|];
    assert t[..|m|] == Strip(s)[..|m|];
    assert s[i..i + |m|] == t[..|m|];
    assert OccursAt(s, m, i);
  }

  /**
   * `Strip(s)` is the middle of `s` left once the whitespace on both ends
   * is cut off: it is empty or starts and ends with a non-space.
   */
  lemma StripShape(s: string) returns (i: nat)
    ensures i + |Strip(s)| <= |s| && Strip(s) == s[i..i + |Strip(s)|]
    ensures forall k :: 0 <= k < i ==> IsSpace(s[k])
    ensures forall k :: i + |Strip(s)| <= k < |s| ==> IsSpace(s[k])
    ensures Strip(s) == "" || (!IsSpace(Strip(s)[0]) && !IsSpace(Strip(s)[|Strip(s)| - 1]))
  {
    var t := TrimLeft(s);
    TrimLeftShape(s);
    TrimRightShape(t);
    i := |s| - |t|;
    if Strip(s) != "" {
      assert Strip(s)[0] == t[0];
    }
  }

  /** Stripping leaves nothing exactly when every character is whitespace. */
  lemma StripEmptyIff(s: string)
    ensures Strip(s) == "" <==> forall k :: 0 <= k < |s| ==> IsSpace(s[k])
  {
    var i := StripShape(s);
    if Strip(s) != "" {
      assert !IsSpace(s[i]);
    }
  }

  /** Every character of a stripped text comes from the text. */
  lemma StripCharacters(s: string, c: char)
    requires c in Strip(s)
    ensures c in s
  {
    var i := StripShape(s);
    var k :| 0 <= k < |Strip(s)| && Strip(s)[k] == c;
    assert s[i + k] == c;
  }

  /** A non-empty stripped text starts and ends with a non-space. */
  lemma StripEdges(s: string)
    ensures Strip(s) == "" || (!IsSpace(Strip(s)[0]) && !IsSpace(Strip(s)[|Strip(s)| - 1]))
  {
    var _ := StripShape(s);
  }

  // ---------------------------------------------------------------------
  // Universal newlines

  /** Text without carriage returns reads back unchanged. */
  lemma {:induction false} ReadWithoutCarriageReturn(s: string)
    requires '\r' !in s
    ensures ReadTranslated(s) == s
  {
    if |s| > 0 {
      ReadWithoutCarriageReturn(s[1..]);
      assert [s[0]] + s[1..] == s;
    }
  }

  /** A prefix without carriage returns reads back unchanged in front of the rest. */
  lemma {:induction false} ReadAfterPlainPrefix(a: string, b: string)
    requires '\r' !in a
    ensures ReadTranslated(a + b) == a + ReadTranslated(b)
  {
    if |a| > 0 {
      var s := a + b;
      assert s[0] == a[0] && s[1..] == a[1..] + b;
      ReadAfterPlainPrefix(a[1..], b);
      assert [a[0]] + a[1..] == a;
    } else {
      assert a + b == b;
    }
  }

  /** A "\r\n" after a plain prefix reads as a single "\n". */
  lemma ReadCarriageReturnLineFeed(a: string, b: string)
    requires '\r' !in a
    ensures ReadTranslated(a + "\r\n" + b) == a + "\n" + ReadTranslated(b)
  {
    var s := "\r\n" + b;
    assert a + "\r\n" + b == a + s;
    ReadAfterPlainPrefix(a, s);
    assert s[2..] == b;
  }

  /** A lone "\r" after a plain prefix, not followed by "\n", reads as "\n". */
  lemma ReadLoneCarriageReturn(a: string, b: string)
    requires '\r' !in a
    requires b == "" || b[0] != '\n'
    ensures ReadTranslated(a + "\r" + b) == a + "\n" + ReadTranslated(b)
  {
    var s := "\r" + b;
    assert a + "\r" + b == a + s;
    ReadAfterPlainPrefix(a, s);
    assert s[1..] == b;
  }

  /** Reading is idempotent: what has been read back reads back as itself. */
  lemma ReadTwice(s: string)
    ensures ReadTranslated(ReadTranslated(s)) == ReadTranslated(s)
  {
    ReadWithoutCarriageReturn(ReadTranslated(s));
  }

  /** A text reads back as itself exactly when it has no carriage return. */
  lemma ReadsBackIff(s: string)
    ensures ReadTranslated(s) == s <==> '\r' !in s
  {
    if '\r' !in s {
      ReadWithoutCarriageReturn(s);
    }
  }
}
