/** The handful of Python string operations the request handler relies on,
    restricted to ASCII: `str.isspace`, `str.strip()`, `str.lower()`, the
    substring test `sub in s`, `str.endswith` and `str.split('\n')`. */
module Text {

  /** Python's `str.isspace` on the ASCII range: tab, line feed, vertical tab,
      form feed, carriage return, the four separators 0x1C-0x1F, and space. */
  predicate IsSpace(c: char)
    ensures IsSpace(c) <==>
      c in {'\t', '\n', '\U{0B}', '\U{0C}', '\r', '\U{1C}', '\U{1D}', '\U{1E}', '\U{1F}', ' '}
  {
    (9 <= c as int <= 13) || (28 <= c as int <= 32)
  }

  /** True when every character of `s` is whitespace (vacuously for ""). */
  predicate AllSpace(s: string) {
    forall k :: 0 <= k < |s| ==> IsSpace(s[k])
  }

  /** A character of whitespace-only text is whitespace. */
  lemma AllSpaceMember(s: string, c: char)
    requires AllSpace(s) && c in s
    ensures IsSpace(c)
  {
    var k :| 0 <= k < |s| && s[k] == c;
  }

  /** `s.strip()`: drops the whitespace at both ends, one character at a time. */
  function Strip(s: string): (r: string)
    ensures |r| <= |s|
    ensures r == [] || (!IsSpace(r[0]) && !IsSpace(r[|r| - 1]))
    ensures r == [] <==> AllSpace(s)
    decreases |s|
  {
    if |s| > 0 && IsSpace(s[0]) then
      assert forall k :: 1 <= k < |s| ==> s[k] == s[1..][k - 1];
      Strip(s[1..])
    else if |s| > 0 && IsSpace(s[|s| - 1]) then
      assert forall k :: 0 <= k < |s| - 1 ==> s[k] == s[..|s| - 1][k];
      Strip(s[..|s| - 1])
    else s
  }

  /** `s` is whitespace, then `r` starting at index `i`, then whitespace. */
  predicate PaddedAt(s: string, r: string, i: int) {
    0 <= i <= |s| - |r| && s[i..i + |r|] == r && AllSpace(s[..i]) && AllSpace(s[i + |r|..])
  }

  /** A leading whitespace character widens the left padding by one. */
  lemma PaddedAtFront(s: string, r: string, j: int)
    requires |s| > 0 && IsSpace(s[0]) && PaddedAt(s[1..], r, j)
    ensures PaddedAt(s, r, j + 1)
  {
    var t := s[1..];
    assert s[j + 1..j + 1 + |r|] == t[j..j + |r|];
    assert s[j + 1 + |r|..] == t[j + |r|..];
    forall k | 0 <= k < j + 1 ensures IsSpace(s[k]) {
      if k > 0 {
        assert s[k] == t[..j][k - 1];
      }
    }
  }

  /** A trailing whitespace character widens the right padding by one. */
  lemma PaddedAtBack(s: string, r: string, j: int)
    requires |s| > 0 && IsSpace(s[|s| - 1]) && PaddedAt(s[..|s| - 1], r, j)
    ensures PaddedAt(s, r, j)
  {
    var t := s[..|s| - 1];
    assert s[j..j + |r|] == t[j..j + |r|];
    assert s[..j] == t[..j];
    forall k | j + |r| <= k < |s| ensures IsSpace(s[k]) {
      if k < |s| - 1 {
        assert s[k] == t[j + |r|..][k - j - |r|];
      }
    }
  }

  /** `Strip(s)` is `s` with its surrounding whitespace removed: `s` is some
      whitespace, then the result, then some whitespace. */
  lemma {:induction false} StripRemovesSurrounding(s: string)
    ensures exists i :: PaddedAt(s, Strip(s), i)
    decreases |s|
  {
    if |s| > 0 && IsSpace(s[0]) {
      StripRemovesSurrounding(s[1..]);
      var j :| PaddedAt(s[1..], Strip(s[1..]), j);
      PaddedAtFront(s, Strip(s), j);
    } else if |s| > 0 && IsSpace(s[|s| - 1]) {
      StripRemovesSurrounding(s[..|s| - 1]);
      var j :| PaddedAt(s[..|s| - 1], Strip(s[..|s| - 1]), j);
      PaddedAtBack(s, Strip(s), j);
    } else {
      assert s[0..|s|] == s;
      assert PaddedAt(s, Strip(s), 0);
    }
  }

  /** Stripping text that has no surrounding whitespace leaves it alone. */
  lemma StripUnchanged(s: string)
    requires s == [] || (!IsSpace(s[0]) && !IsSpace(s[|s| - 1]))
    ensures Strip(s) == s
  {
  }

  /** `str.strip()` is idempotent. */
  lemma StripIdempotent(s: string)
    ensures Strip(Strip(s)) == Strip(s)
  {
    StripUnchanged(Strip(s));
  }

  /** `c.lower()` for an ASCII character: A-Z map to a-z, the rest is kept. */
  function LowerChar(c: char): (d: char)
    ensures 'A' <= c <= 'Z' ==> 'a' <= d <= 'z' && d as int - c as int == 32
    ensures !('A' <= c <= 'Z') ==> d == c
  {
    if 'A' <= c <= 'Z' then (c as int + 32) as char else c
  }

  /** `s.lower()`, character by character. */
  function Lower(s: string): (r: string)
    ensures |r| == |s|
    ensures forall k :: 0 <= k < |s| ==> r[k] == LowerChar(s[k])
  {
    seq(|s|, k requires 0 <= k < |s| => LowerChar(s[k]))
  }

  /** Python's `sub in s`: `sub` occurs in `s` at some position. */
  predicate Contains(s: string, sub: string) {
    exists i :: 0 <= i <= |s| - |sub| && sub <= s[i..]
  }

  /** `s.endswith(suffix)`. */
  predicate EndsWith(s: string, suffix: string)
    ensures EndsWith(s, suffix) <==> exists i :: 0 <= i <= |s| && s[i..] == suffix
  {
    |suffix| <= |s| && s[|s| - |suffix|..] == suffix
  }

  /** `s.split('\n')`: the pieces between line feeds. There is always at least
      one piece, so "" splits to [""] and "a\n" to ["a", ""]. */
  function Split(s: string): (parts: seq<string>)
    ensures |parts| >= 1
    ensures forall i :: 0 <= i < |parts| ==> '\n' !in parts[i]
    decreases |s|
  {
    if s == [] then [""]
    else
      var rest := Split(s[1..]);
      if s[0] == '\n' then
        var parts := [""] + rest;
        assert forall i :: 1 <= i < |parts| ==> parts[i] == rest[i - 1];
        parts
      else
        var parts := [[s[0]] + rest[0]] + rest[1..];
        assert forall i :: 1 <= i < |parts| ==> parts[i] == rest[i];
        parts
  }

  /** Every character of every piece comes from the text split. */
  lemma {:induction false} SplitChars(s: string)
    ensures forall i, c :: 0 <= i < |Split(s)| && c in Split(s)[i] ==> c in s
    decreases |s|
  {
    if s != [] {
      SplitChars(s[1..]);
      var rest := Split(s[1..]);
      assert forall c :: c in s[1..] ==> c in s;
      if s[0] == '\n' {
        assert forall i :: 1 <= i < |Split(s)| ==> Split(s)[i] == rest[i - 1];
      } else {
        assert forall i :: 1 <= i < |Split(s)| ==> Split(s)[i] == rest[i];
      }
    }
  }

  /** `'\n'.join(parts)`. */
  function Join(parts: seq<string>): (s: string)
    requires |parts| >= 1
    decreases |parts|
  {
    if |parts| == 1 then parts[0] else parts[0] + "\n" + Join(parts[1..])
  }

  /** Joining the pieces of a split gives back the original text. */
  lemma {:induction false} JoinSplit(s: string)
    ensures Join(Split(s)) == s
    decreases |s|
  {
    if s != [] {
      var rest := Split(s[1..]);
      JoinSplit(s[1..]);
      if s[0] == '\n' {
        assert Split(s) == [""] + rest;
        assert Split(s)[1..] == rest;
      } else {
        var parts := [[s[0]] + rest[0]] + rest[1..];
        assert Split(s) == parts;
        if |rest| == 1 {
          assert s == [s[0]] + s[1..];
        } else {
          assert parts[1..] == rest[1..];
          assert Join(rest) == rest[0] + "\n" + Join(rest[1..]);
          assert s == [s[0]] + s[1..];
        }
      }
    }
  }

  /** Text without a line feed is a single piece. */
  lemma {:induction false} SplitSingleLine(s: string)
    requires '\n' !in s
    ensures Split(s) == [s]
    decreases |s|
  {
    if s != [] {
      assert s[1..] == s[|s| - |s[1..]|..];
      SplitSingleLine(s[1..]);
      assert s == [s[0]] + s[1..];
    }
  }

  /** One step of splitting: a leading line feed starts a new piece; any
      other leading character joins the first piece of the rest. */
  lemma SplitCons(s: string)
    requires s != []
    ensures Split(s) == if s[0] == '\n' then [""] + Split(s[1..])
                        else [[s[0]] + Split(s[1..])[0]] + Split(s[1..])[1..]
  {
  }

  /** Splitting `a + "\n" + b` splits `a` and `b` separately. */
  lemma {:induction false} SplitAtNewline(a: string, b: string)
    ensures Split(a + "\n" + b) == Split(a) + Split(b)
    decreases |a|
  {
    var s := a + "\n" + b;
    SplitCons(s);
    if a == [] {
      assert s[0] == '\n' && s[1..] == b;
    } else {
      assert s[0] == a[0] && s[1..] == a[1..] + "\n" + b;
      SplitAtNewline(a[1..], b);
      SplitCons(a);
      var front := Split(a[1..]);
      var rest := Split(s[1..]);
      assert rest == front + Split(b);
      if a[0] != '\n' {
        assert rest[0] == front[0];
        assert rest[1..] == front[1..] + Split(b);
      }
    }
  }

  /** Splitting inverts joining, as long as no piece holds a line feed. */
  lemma {:induction false} SplitJoin(parts: seq<string>)
    requires |parts| >= 1
    requires forall i :: 0 <= i < |parts| ==> '\n' !in parts[i]
    ensures Split(Join(parts)) == parts
    decreases |parts|
  {
    SplitSingleLine(parts[0]);
    if |parts| > 1 {
      SplitJoin(parts[1..]);
      SplitAtNewline(parts[0], Join(parts[1..]));
      assert parts == [parts[0]] + parts[1..];
    }
  }
}
