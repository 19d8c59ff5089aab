/** The Python `str` operations the core uses: `strip()`, `lower()`,
    `replace(" ", "")` and the substring test `needle in hay`. */
module Text {
  import Seqs

  /** `c.isspace()`: the characters `str.strip()` removes when called without an argument. */
  predicate IsSpace(c: char)
  {
    || c == ' '
    || ('\t' <= c <= '\r')
    || ('\U{1C}' <= c <= '\U{1F}')
    || c == '\U{85}' || c == '\U{A0}' || c == '\U{1680}'
    || ('\U{2000}' <= c <= '\U{200A}')
    || c == '\U{2028}' || c == '\U{2029}' || c == '\U{202F}' || c == '\U{205F}' || c == '\U{3000}'
  }

  /** The number of whitespace characters `s.lstrip()` removes. */
  function LeadingSpaces(s: string): (n: nat)
    ensures n <= |s|
    ensures forall k | 0 <= k < n :: IsSpace(s[k])
    ensures n < |s| ==> !IsSpace(s[n])
  {
    if |s| > 0 && IsSpace(s[0]) then
      var n := 1 + LeadingSpaces(s[1..]);
      assert forall k | 1 <= k < n :: s[k] == s[1..][k - 1];
      n
    else 0
  }

  /** The length of `s.rstrip()`: everything from there on is whitespace. */
  function TextEnd(s: string): (n: nat)
    ensures n <= |s|
    ensures forall k | n <= k < |s| :: IsSpace(s[k])
    ensures n > 0 ==> !IsSpace(s[n - 1])
  {
    if |s| > 0 && IsSpace(s[|s| - 1]) then TextEnd(s[..|s| - 1]) else |s|
  }

  /** A string with no whitespace at either end. */
  predicate IsTrimmed(s: string)
  {
    s == [] || (!IsSpace(s[0]) && !IsSpace(s[|s| - 1]))
  }

  /** `r` is the block `s[i..j]`, and every character of `s` outside it is
      whitespace. */
  ghost predicate IsBlockBetweenSpaces(s: string, r: string, i: int, j: int)
  {
    && 0 <= i <= j <= |s|
    && r == s[i..j]
    && (forall k | 0 <= k < i :: IsSpace(s[k]))
    && (forall k | j <= k < |s| :: IsSpace(s[k]))
  }

  /** `s` without its leading and trailing whitespace, as `str.strip()` returns it. */
  function Strip(s: string): (r: string)
    ensures |r| <= |s|
    ensures IsTrimmed(r)
    ensures r == [] <==> forall k | 0 <= k < |s| :: IsSpace(s[k])
  {
    var i := LeadingSpaces(s);
    var n := TextEnd(s[i..]);
    assert n > 0 ==> s[i + n - 1] == s[i..][n - 1];
    SpacesAfter(s, i, n);
    s[i..i + n]
  }

  /** What `strip()` keeps: the block of `s` between its leading and its
      trailing whitespace. Together with `IsTrimmed(Strip(s))` this fixes the
      block: it starts and ends at non-whitespace characters. */
  lemma StripIsBlock(s: string)
    ensures exists i, j :: IsBlockBetweenSpaces(s, Strip(s), i, j)
  {
    var i := LeadingSpaces(s);
    var n := TextEnd(s[i..]);
    SpacesAfter(s, i, n);
    assert IsBlockBetweenSpaces(s, Strip(s), i, i + n);
  }

  /** Whitespace at the end of `s[i..]` is whitespace at the end of `s`. */
  lemma SpacesAfter(s: string, i: nat, n: nat)
    requires i <= |s| && n <= |s| - i
    requires forall k | n <= k < |s| - i :: IsSpace(s[i..][k])
    ensures forall k | i + n <= k < |s| :: IsSpace(s[k])
  {
    forall k | i + n <= k < |s|
      ensures IsSpace(s[k])
    {
      assert s[k] == s[i..][k - i];
    }
  }

  /** Stripping a string that has no whitespace at either end changes nothing;
      in particular `Strip` is idempotent. */
  lemma {:induction false} StripKeepsTrimmed(s: string)
    requires IsTrimmed(s)
    ensures Strip(s) == s
  {
  }

  lemma StripIdempotent(s: string)
    ensures Strip(Strip(s)) == Strip(s)
  {
    StripKeepsTrimmed(Strip(s));
  }

  predicate IsUpper(c: char)
  {
    'A' <= c <= 'Z'
  }

  function LowerChar(c: char): char
  {
    if IsUpper(c) then (c as int + 32) as char else c
  }

  /** `s.lower()`, restricted to the ASCII letters. */
  function Lower(s: string): (r: string)
    ensures |r| == |s|
    ensures forall k | 0 <= k < |r| :: !IsUpper(r[k])
    ensures forall k | 0 <= k < |r| :: !IsUpper(s[k]) ==> r[k] == s[k]
    ensures forall k | 0 <= k < |r| :: IsSpace(r[k]) <==> IsSpace(s[k])
  {
    seq(|s|, k requires 0 <= k < |s| => LowerChar(s[k]))
  }

  /** Lower-casing works character by character, so it distributes over
      concatenation. */
  lemma LowerAppend(a: string, b: string)
    ensures Lower(a + b) == Lower(a) + Lower(b)
  {
  }

  /** Lower-casing never produces a space from another character. */
  lemma LowerKeepsSpaceFree(s: string)
    requires ' ' !in s
    ensures ' ' !in Lower(s)
  {
    forall k | 0 <= k < |s|
      ensures Lower(s)[k] != ' '
    {
      assert s[k] in s;
    }
  }

  /** `s` with every space character removed (other whitespace stays). */
  function RemoveSpaces(s: string): (r: string)
    ensures |r| <= |s|
    ensures ' ' !in r
    ensures forall c | c in r :: c in s
  {
    if |s| == 0 then []
    else if s[0] == ' ' then RemoveSpaces(s[1..])
    else [s[0]] + RemoveSpaces(s[1..])
  }

  /** `RemoveSpaces` agrees with selecting the characters other than ' '. */
  lemma {:induction false} RemoveSpacesIsFilter(s: string)
    ensures RemoveSpaces(s) == Seqs.Filter(c => c != ' ', s)
    decreases |s|
  {
    if |s| > 0 {
      RemoveSpacesIsFilter(s[1..]);
    }
  }

  /** Removing spaces distributes over concatenation. */
  lemma {:induction false} RemoveSpacesAppend(a: string, b: string)
    ensures RemoveSpaces(a + b) == RemoveSpaces(a) + RemoveSpaces(b)
    decreases |a|
  {
    if |a| == 0 {
      assert a + b == b;
    } else {
      assert (a + b)[0] == a[0];
      assert (a + b)[1..] == a[1..] + b;
      RemoveSpacesAppend(a[1..], b);
    }
  }

  /** Lower-casing a string without upper-case letters changes nothing. */
  lemma LowerNoUpper(s: string)
    requires forall c | c in s :: !IsUpper(c)
    ensures Lower(s) == s
  {
    forall k | 0 <= k < |s|
      ensures Lower(s)[k] == s[k]
    {
      assert s[k] in s;
    }
  }

  /** Removing spaces from a string that has none changes nothing. */
  lemma {:induction false} RemoveSpacesNoSpace(s: string)
    requires ' ' !in s
    ensures RemoveSpaces(s) == s
    decreases |s|
  {
    if |s| > 0 {
      assert s[0] in s;
      assert forall c | c in s[1..] :: c in s;
      RemoveSpacesNoSpace(s[1..]);
      assert s == [s[0]] + s[1..];
    }
  }

  /** Removing the one space between two space-free strings joins them. */
  lemma RemoveOneSpace(a: string, b: string)
    requires ' ' !in a && ' ' !in b
    ensures RemoveSpaces(a + " " + b) == a + b
  {
    var sp := " ";
    calc {
      RemoveSpaces(a + sp + b);
      { RemoveSpacesAppend(a + sp, b); }
      RemoveSpaces(a + sp) + RemoveSpaces(b);
      { RemoveSpacesAppend(a, sp); }
      RemoveSpaces(a) + RemoveSpaces(sp) + RemoveSpaces(b);
      { RemoveSpacesNoSpace(a); RemoveSpacesNoSpace(b); assert sp[1..] == []; }
      a + [] + b;
      { assert a + [] == a; }
      a + b;
    }
  }

  /** Removing inner spaces from a stripped string leaves it stripped: its
      first and last characters are not spaces, so they stay in place. */
  lemma RemoveSpacesKeepsTrimmed(s: string)
    requires IsTrimmed(s)
    ensures IsTrimmed(RemoveSpaces(s))
  {
    if |s| > 0 {
      var n := |s|;
      assert s == s[..n - 1] + [s[n - 1]];
      RemoveSpacesAppend(s[..n - 1], [s[n - 1]]);
      assert RemoveSpaces([s[n - 1]]) == [s[n - 1]] by {
        assert [s[n - 1]][1..] == [];
      }
    }
  }

  /** `p` is a prefix of `s`. */
  predicate IsPrefix(p: string, s: string)
  {
    |p| <= |s| && s[..|p|] == p
  }

  /** `needle in hay`: `needle` occurs as a contiguous block of `hay`. */
  predicate Contains(hay: string, needle: string)
    decreases |hay|
  {
    IsPrefix(needle, hay) || (|hay| > 0 && Contains(hay[1..], needle))
  }

  /** A block found in `hay` is no longer than `hay`. */
  lemma {:induction false} ContainsShorter(hay: string, needle: string)
    requires Contains(hay, needle)
    ensures |needle| <= |hay|
    decreases |hay|
  {
    if !IsPrefix(needle, hay) {
      ContainsShorter(hay[1..], needle);
    }
  }

  /** `hay[i:i + len(needle)] == needle`, with the window inside `hay`. */
  predicate WindowAt(hay: string, needle: string, i: int)
  {
    0 <= i <= |hay| - |needle| && hay[i..i + |needle|] == needle
  }

  /** `Contains` agrees with the slicing definition of a substring: some
      window of `hay` equals `needle`. */
  lemma {:induction false} ContainsIsWindow(hay: string, needle: string)
    ensures Contains(hay, needle) ==> exists i :: WindowAt(hay, needle, i)
    ensures (exists i :: WindowAt(hay, needle, i)) ==> Contains(hay, needle)
    decreases |hay|
  {
    if Contains(hay, needle) {
      if IsPrefix(needle, hay) {
        assert WindowAt(hay, needle, 0);
      } else {
        ContainsIsWindow(hay[1..], needle);
        var i :| WindowAt(hay[1..], needle, i);
        assert hay[1..][i..i + |needle|] == hay[i + 1..i + 1 + |needle|];
        assert WindowAt(hay, needle, i + 1);
      }
    }
    if exists i :: WindowAt(hay, needle, i) {
      var i :| WindowAt(hay, needle, i);
      if i == 0 {
        assert IsPrefix(needle, hay);
      } else {
        assert hay[1..][i - 1..i - 1 + |needle|] == hay[i..i + |needle|];
        assert WindowAt(hay[1..], needle, i - 1);
        ContainsIsWindow(hay[1..], needle);
      }
    }
  }

  /** A non-empty block found in `hay` starts with a character of `hay`. */
  lemma ContainsFirstChar(hay: string, needle: string)
    requires Contains(hay, needle) && |needle| > 0
    ensures needle[0] in hay
  {
    ContainsIsWindow(hay, needle);
    var i :| WindowAt(hay, needle, i);
    assert hay[i..i + |needle|][0] == needle[0];
  }
}
