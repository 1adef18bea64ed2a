/**
 * The ECMAScript string built-ins that the webhook applies to message text:
 * String.prototype.trim, String.prototype.includes, String.prototype.toLowerCase
 * and the `length` property. A JavaScript string is a sequence of UTF-16 code
 * units; here a string is a sequence of Unicode scalar values, and `length` is
 * recovered by counting two code units for every code point above U+FFFF.
 */
module EcmaString {

  /** WhiteSpace (ECMA-262 section 12.2) or LineTerminator (section 12.3):
      the code points that trim and parseInt strip. */
  predicate IsWhiteSpace(c: char) {
    || c == '\t' || c == '\U{000B}' || c == '\U{000C}' || c == ' ' || c == '\U{00A0}' || c == '\U{FEFF}'
    || c == '\U{1680}' || ('\U{2000}' <= c <= '\U{200A}') || c == '\U{202F}' || c == '\U{205F}' || c == '\U{3000}'
    || c == '\n' || c == '\r' || c == '\U{2028}' || c == '\U{2029}'
  }

  /** The length of the longest white-space prefix of `s`. */
  function LeadingEnd(s: string): (k: nat)
    ensures k <= |s|
    ensures forall i | 0 <= i < k :: IsWhiteSpace(s[i])
    ensures k < |s| ==> !IsWhiteSpace(s[k])
  {
    if s != [] && IsWhiteSpace(s[0]) then
      var k := 1 + LeadingEnd(s[1..]);
      assert forall i | 1 <= i < k :: s[i] == s[1..][i - 1];
      k
    else 0
  }

  /** Where the longest white-space suffix of `s` starts. */
  function TrailingStart(s: string): (m: nat)
    ensures m <= |s|
    ensures forall i | m <= i < |s| :: IsWhiteSpace(s[i])
    ensures 0 < m ==> !IsWhiteSpace(s[m - 1])
  {
    if s != [] && IsWhiteSpace(s[|s| - 1]) then
      var m := TrailingStart(s[..|s| - 1]);
      assert forall i | m <= i < |s| - 1 :: s[i] == s[..|s| - 1][i];
      m
    else |s|
  }

  /** `s` without its leading white space (what parseInt strips first). */
  function TrimStart(s: string): string {
    s[LeadingEnd(s)..]
  }

  /** String.prototype.trim: white space removed at both ends. */
  function Trim(s: string): string {
    var k := LeadingEnd(s);
    if k == |s| then [] else s[k..TrailingStart(s)]
  }

  /** Trim keeps one contiguous run of `s`, starting after its leading white space,
      and everything it drops is white space. */
  lemma {:induction false} TrimDropsOnlyWhiteSpace(s: string)
    ensures LeadingEnd(s) + |Trim(s)| <= |s|
    ensures Trim(s) == s[LeadingEnd(s)..LeadingEnd(s) + |Trim(s)|]
    ensures var k := LeadingEnd(s);
      forall i | 0 <= i < |s| && !(k <= i < k + |Trim(s)|) :: IsWhiteSpace(s[i])
  {
  }

  /** What trim keeps neither starts nor ends with white space. */
  lemma {:induction false} TrimHasNoOuterWhiteSpace(s: string)
    ensures Trim(s) == [] || (!IsWhiteSpace(Trim(s)[0]) && !IsWhiteSpace(Trim(s)[|Trim(s)| - 1]))
  {
  }

  /** Trimming is idempotent; in particular parseInt's own leading strip does nothing to trimmed text. */
  lemma {:induction false} TrimIdempotent(s: string)
    ensures Trim(Trim(s)) == Trim(s)
    ensures TrimStart(Trim(s)) == Trim(s)
  {
    TrimHasNoOuterWhiteSpace(s);
  }

  /** `t` occurs in `s` starting at index `i`. */
  predicate OccursAt(s: string, t: string, i: int) {
    0 <= i && i + |t| <= |s| && s[i..i + |t|] == t
  }

  /** String.prototype.includes(search) without a position: scan `s` from the left. */
  predicate Includes(s: string, search: string)
    decreases |s|
  {
    |search| <= |s| && (s[..|search|] == search || (s != [] && Includes(s[1..], search)))
  }

  /** Includes holds exactly when `search` occurs somewhere in `s`. */
  lemma {:induction false} IncludesIffOccurs(s: string, search: string)
    ensures Includes(s, search) <==> exists i :: OccursAt(s, search, i)
    decreases |s|
  {
    if Includes(s, search) {
      if s[..|search|] == search {
        assert OccursAt(s, search, 0);
      } else {
        IncludesIffOccurs(s[1..], search);
        var i :| OccursAt(s[1..], search, i);
        assert s[1..][i..i + |search|] == s[i + 1..i + 1 + |search|];
        assert OccursAt(s, search, i + 1);
      }
    }
    if exists i :: OccursAt(s, search, i) {
      var i :| OccursAt(s, search, i);
      if i == 0 {
        assert s[..|search|] == search;
      } else {
        assert s[1..][i - 1..i - 1 + |search|] == s[i..i + |search|];
        assert OccursAt(s[1..], search, i - 1);
        IncludesIffOccurs(s[1..], search);
      }
    }
  }

  /** Lower-case mapping of one code point; only the letters A-Z are mapped. */
  function LowerChar(c: char): char {
    if 'A' <= c <= 'Z' then (c as int - 'A' as int + 'a' as int) as char else c
  }

  /** String.prototype.toLowerCase, code point by code point: exactly the upper-case
      letters change, and none is left. */
  function ToLowerCase(s: string): (r: string)
    ensures |r| == |s|
    ensures forall i | 0 <= i < |s| :: r[i] == s[i] <==> !('A' <= s[i] <= 'Z')
    ensures forall i | 0 <= i < |s| && 'A' <= s[i] <= 'Z' :: r[i] as int == s[i] as int + 32
    ensures forall i | 0 <= i < |r| :: !('A' <= r[i] <= 'Z')
  {
    seq(|s|, i requires 0 <= i < |s| => LowerChar(s[i]))
  }

  /** `t` contains no letter that lower-casing maps or produces. */
  predicate Caseless(t: string) {
    forall i | 0 <= i < |t| :: !('A' <= t[i] <= 'Z') && !('a' <= t[i] <= 'z')
  }

  /** Searching the lower-cased text for a caseless word gives the same answer as searching the text. */
  lemma {:induction false} LowerCaseKeepsCaselessMatch(s: string, t: string)
    requires Caseless(t)
    ensures Includes(ToLowerCase(s), t) <==> Includes(s, t)
  {
    var l := ToLowerCase(s);
    forall i ensures OccursAt(l, t, i) <==> OccursAt(s, t, i) {
      if 0 <= i && i + |t| <= |s| {
        forall j | 0 <= j < |t| ensures l[i + j] == t[j] <==> s[i + j] == t[j] {
          assert 0 <= i + j < |s|;
        }
        assert l[i..i + |t|] == t <==> s[i..i + |t|] == t by {
          if l[i..i + |t|] == t {
            forall j | 0 <= j < |t| ensures s[i..i + |t|][j] == t[j] {
              assert l[i..i + |t|][j] == l[i + j];
            }
          }
          if s[i..i + |t|] == t {
            forall j | 0 <= j < |t| ensures l[i..i + |t|][j] == t[j] {
              assert s[i..i + |t|][j] == s[i + j];
            }
          }
        }
      }
    }
    IncludesIffOccurs(l, t);
    IncludesIffOccurs(s, t);
  }

  /** The JavaScript `length` of a string: the number of its UTF-16 code units. */
  function Utf16Length(s: string): (n: nat)
    ensures |s| <= n <= 2 * |s|
    ensures (forall i | 0 <= i < |s| :: s[i] as int < 0x1_0000) ==> n == |s|
  {
    if s == [] then 0
    else Utf16Length(s[..|s| - 1]) + (if s[|s| - 1] as int < 0x1_0000 then 1 else 2)
  }

  /** The length of a concatenation is the sum of the lengths. */
  lemma {:induction false} Utf16LengthAppend(a: string, b: string)
    ensures Utf16Length(a + b) == Utf16Length(a) + Utf16Length(b)
    decreases |b|
  {
    if b == [] {
      assert a + b == a;
    } else {
      var init := b[..|b| - 1];
      assert (a + b)[..|a + b| - 1] == a + init;
      assert (a + b)[|a + b| - 1] == b[|b| - 1];
      Utf16LengthAppend(a, init);
    }
  }

  /** One code point is one code unit up to U+FFFF and a surrogate pair above it. */
  lemma {:induction false} Utf16LengthOfChar(c: char)
    ensures Utf16Length([c]) == if c as int < 0x1_0000 then 1 else 2
  {
    assert [c][..0] == [];
  }
}
