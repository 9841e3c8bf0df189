/** The parts of the C++ string library the address book relies on, over
    strings as `seq<char>`: `::tolower` in the "C" locale, `std::string::find`
    and the lexicographic `operator<` of `std::string`. */
module Strings {

  datatype Option<T> = None | Some(value: T)

  predicate IsUpper(c: char) { 'A' <= c <= 'Z' }

  /** `::tolower` on one character: 'A'..'Z' become 'a'..'z', every other
      character is returned as it is. */
  function LowerChar(c: char): (r: char)
    ensures !IsUpper(r)
  {
    if IsUpper(c) then (c as int + 32) as char else c
  }

  /** `std::transform(s.begin(), s.end(), s.begin(), ::tolower)`. */
  function ToLower(s: string): string
  {
    seq(|s|, i requires 0 <= i < |s| => LowerChar(s[i]))
  }

  /** The upper-case letters of the "C" locale and, position by position,
      their lower-case counterparts. */
  const Upper := "ABCDEFGHIJKLMNOPQRSTUVWXYZ"
  const Lower := "abcdefghijklmnopqrstuvwxyz"

  /** `::tolower` maps each letter of `Upper` to the letter of `Lower` at the
      same position. */
  lemma LowerCharTable()
    ensures forall i :: 0 <= i < |Upper| ==> LowerChar(Upper[i]) == Lower[i]
  {
  }

  /** ... and returns every other character as it is. */
  lemma LowerCharOthers(c: char)
    ensures c !in Upper ==> LowerChar(c) == c
  {
    if IsUpper(c) {
      assert Upper[c as int - 'A' as int] == c;
    }
  }

  /** Lower-casing twice is lower-casing once. */
  lemma ToLowerIdempotent(s: string)
    ensures ToLower(ToLower(s)) == ToLower(s)
  {
    var once := ToLower(s);
    forall i | 0 <= i < |s|
      ensures ToLower(once)[i] == once[i]
    {
    }
  }

  /** Lower-casing a prefix gives a prefix of the lower-cased string. */
  lemma ToLowerPrefix(p: string, s: string)
    requires p <= s
    ensures ToLower(p) <= ToLower(s)
  {
    assert ToLower(s)[..|p|] == ToLower(p);
  }

  /** One position refutes a case-insensitive prefix: a position of `p`
      past the end of `s`, or one where the lower-cased characters differ. */
  lemma LowerMismatch(p: string, s: string, i: nat)
    requires i < |p|
    requires i >= |s| || LowerChar(p[i]) != LowerChar(s[i])
    ensures !(ToLower(p) <= ToLower(s))
  {
    if i < |s| {
      assert ToLower(p)[i] != ToLower(s)[i];
    }
  }

  /** `needle` occurs in `hay` starting at position `p`. */
  predicate OccursAt(hay: string, needle: string, p: nat)
  {
    p + |needle| <= |hay| && hay[p..p + |needle|] == needle
  }

  /** `hay.find(needle, pos)`: the first position at or after `pos` where
      `needle` occurs, or `None` for `std::string::npos`. */
  function FindFrom(hay: string, needle: string, pos: nat): (r: Option<nat>)
    decreases |hay| - pos
    ensures r.Some? ==> pos <= r.value && OccursAt(hay, needle, r.value)
    ensures r.Some? ==> forall p :: pos <= p < r.value ==> !OccursAt(hay, needle, p)
    ensures r.None? ==> forall p: nat :: pos <= p ==> !OccursAt(hay, needle, p)
  {
    if pos + |needle| > |hay| then None
    else if hay[pos..pos + |needle|] == needle then Some(pos)
    else FindFrom(hay, needle, pos + 1)
  }

  /** `hay.find(needle)`, searching from the start. */
  function Find(hay: string, needle: string): Option<nat>
  {
    FindFrom(hay, needle, 0)
  }

  /** `hay.find(needle) == 0` holds exactly when `needle` is a prefix of
      `hay`; in particular a needle longer than `hay` never matches, and the
      empty needle always does. */
  lemma FindAtStartIffPrefix(hay: string, needle: string)
    ensures Find(hay, needle) == Some(0) <==> needle <= hay
  {
    if needle <= hay {
      assert hay[0..|needle|] == needle;
    }
    if Find(hay, needle) == Some(0) {
      assert OccursAt(hay, needle, 0);
    }
  }

  /** `a < b` on `std::string`: lexicographic comparison of the characters,
      a proper prefix coming first. */
  predicate Less(a: string, b: string)
  {
    if a == [] then b != []
    else if b == [] then false
    else if a[0] != b[0] then a[0] < b[0]
    else Less(a[1..], b[1..])
  }

  /** The textbook definition of lexicographic order, written independently
      of `Less`: a proper prefix, or a first differing position where `a`
      has the smaller character. */
  ghost predicate Lexicographic(a: string, b: string)
  {
    a < b || exists k :: 0 <= k < |a| && k < |b| && a[..k] == b[..k] && a[k] < b[k]
  }

  lemma {:induction false} LessIsLexicographic(a: string, b: string)
    ensures Less(a, b) <==> Lexicographic(a, b)
    decreases |a|
  {
    if a == [] || b == [] {
    } else if a[0] != b[0] {
      if Less(a, b) {
        assert a[..0] == b[..0];
      }
    } else {
      LessIsLexicographic(a[1..], b[1..]);
      if Less(a, b) {
        if a[1..] < b[1..] {
          assert a < b;
        } else {
          var k :| 0 <= k < |a[1..]| && k < |b[1..]| && a[1..][..k] == b[1..][..k] && a[1..][k] < b[1..][k];
          assert a[..k + 1] == [a[0]] + a[1..][..k];
          assert b[..k + 1] == [b[0]] + b[1..][..k];
          assert a[k + 1] < b[k + 1];
        }
      }
      if Lexicographic(a, b) {
        if a < b {
          assert a[1..] < b[1..];
        } else {
          var k :| 0 <= k < |a| && k < |b| && a[..k] == b[..k] && a[k] < b[k];
          assert k > 0;
          assert a[1..][..k - 1] == a[..k][1..];
          assert b[1..][..k - 1] == b[..k][1..];
          assert a[1..][k - 1] < b[1..][k - 1];
        }
      }
    }
  }

  lemma {:induction false} LessIrreflexive(a: string)
    ensures !Less(a, a)
    decreases |a|
  {
    if a != [] {
      LessIrreflexive(a[1..]);
    }
  }

  lemma {:induction false} LessTransitive(a: string, b: string, c: string)
    requires Less(a, b) && Less(b, c)
    ensures Less(a, c)
    decreases |a|
  {
    if a != [] && a[0] == b[0] && b[0] == c[0] {
      LessTransitive(a[1..], b[1..], c[1..]);
    }
  }

  /** Any two different strings are ordered one way or the other. */
  lemma {:induction false} LessTotal(a: string, b: string)
    requires a != b
    ensures Less(a, b) || Less(b, a)
    decreases |a|
  {
    if a != [] && b != [] && a[0] == b[0] {
      assert a == [a[0]] + a[1..] && b == [b[0]] + b[1..];
      LessTotal(a[1..], b[1..]);
    }
  }
}
