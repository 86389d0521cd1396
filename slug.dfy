/**
 * `GenerateSlug`, written out identically in the category and the tag controllers:
 * `name.ToLower().Replace(" ", "-").Replace("&", "and").Trim()`.
 * Lower-casing is modelled on ASCII letters; `Trim` removes the characters .NET
 * classifies as white space.
 */
module Slugs {
  import opened Common

  /** `char.IsWhiteSpace`: the Unicode space separators, line and paragraph separators, and U+0009-U+000D, U+0085. */
  predicate IsWhiteSpace(c: char) {
    var n := c as int;
    || n == 0x20 || 0x09 <= n <= 0x0D || n == 0x85 || n == 0xA0 || n == 0x1680
    || 0x2000 <= n <= 0x200A || n == 0x2028 || n == 0x2029 || n == 0x202F || n == 0x205F || n == 0x3000
  }

  predicate IsUpperAscii(c: char) { 'A' <= c <= 'Z' }

  /** `Replace(" ", "-")`. */
  function SpacesToHyphens(s: string): (r: string)
    ensures |r| == |s|
    ensures forall i :: 0 <= i < |r| ==> r[i] == if s[i] == ' ' then '-' else s[i]
  {
    seq(|s|, i requires 0 <= i < |s| => if s[i] == ' ' then '-' else s[i])
  }

  /** `Replace("&", "and")`. */
  function ExpandAmpersands(s: string): (r: string)
    ensures '&' !in r
    ensures forall c :: c in r ==> c in s || c in "and"
  {
    if s == [] then []
    else
      assert forall c :: c in s[1..] ==> c in s;
      (if s[0] == '&' then "and" else [s[0]]) + ExpandAmpersands(s[1..])
  }

  lemma {:induction false} ExpandAmpersandsAppend(a: string, b: string)
    ensures ExpandAmpersands(a + b) == ExpandAmpersands(a) + ExpandAmpersands(b)
  {
    if a == [] {
      assert a + b == b;
    } else {
      assert (a + b)[0] == a[0] && (a + b)[1..] == a[1..] + b;
      ExpandAmpersandsAppend(a[1..], b);
    }
  }

  /** Each '&' turns into "and"; everything else is kept in place. */
  lemma ExpandAmpersandsAt(a: string, b: string)
    ensures ExpandAmpersands(a + "&" + b) == ExpandAmpersands(a) + "and" + ExpandAmpersands(b)
  {
    ExpandAmpersandsAppend(a + "&", b);
    ExpandAmpersandsAppend(a, "&");
    assert ExpandAmpersands("&") == "and" + ExpandAmpersands([]);
  }

  lemma {:induction false} ExpandWithoutAmpersand(s: string)
    requires '&' !in s
    ensures ExpandAmpersands(s) == s
  {
    if s != [] {
      assert s[0] != '&';
      ExpandWithoutAmpersand(s[1..]);
    }
  }

  /** `TrimStart()`: drops the leading white space. */
  function TrimStart(s: string): (r: string)
    ensures |r| <= |s| && r == s[|s| - |r|..]
    ensures forall i :: 0 <= i < |s| - |r| ==> IsWhiteSpace(s[i])
    ensures r == [] || !IsWhiteSpace(r[0])
  {
    if s != [] && IsWhiteSpace(s[0]) then TrimStart(s[1..]) else s
  }

  /** `TrimEnd()`: drops the trailing white space. */
  function TrimEnd(s: string): (r: string)
    ensures |r| <= |s| && r == s[..|r|]
    ensures forall i :: |r| <= i < |s| ==> IsWhiteSpace(s[i])
    ensures r == [] || !IsWhiteSpace(r[|r| - 1])
  {
    if s != [] && IsWhiteSpace(s[|s| - 1]) then TrimEnd(s[..|s| - 1]) else s
  }

  /** `Trim()`: a piece of `s`, with no white space left at either end. */
  function Trim(s: string): (r: string)
    ensures forall c :: c in r ==> c in s
    ensures r == [] || (!IsWhiteSpace(r[0]) && !IsWhiteSpace(r[|r| - 1]))
  {
    var t := TrimStart(s);
    var r := TrimEnd(t);
    assert forall c :: c in r ==> c in t;
    assert forall c :: c in t ==> c in s;
    r
  }

  /** Trimming a string with no white space at either end changes nothing. */
  lemma TrimTrimmed(s: string)
    requires s == [] || (!IsWhiteSpace(s[0]) && !IsWhiteSpace(s[|s| - 1]))
    ensures Trim(s) == s
  {
  }

  /** A slug has no space, no '&', no upper-case ASCII letter, and no white space at either end. */
  function GenerateSlug(name: string): (slug: string)
    ensures ' ' !in slug && '&' !in slug
    ensures forall c :: c in slug ==> !IsUpperAscii(c)
    ensures slug == [] || (!IsWhiteSpace(slug[0]) && !IsWhiteSpace(slug[|slug| - 1]))
  {
    var h := SpacesToHyphens(ToLowerAscii(name));
    var e := ExpandAmpersands(h);
    HyphenatedCharacters(name);
    AndCharacters();
    Trim(e)
  }

  /** The letters of "and" are lower-case and not spaces. */
  lemma AndCharacters()
    ensures forall c :: c in "and" ==> c != ' ' && c != '&' && !IsUpperAscii(c)
  {
    forall c | c in "and" ensures c == 'a' || c == 'n' || c == 'd' {
      var i :| 0 <= i < 3 && "and"[i] == c;
    }
  }

  /** Before the ampersands are expanded, there is no space and no upper-case letter left. */
  lemma HyphenatedCharacters(name: string)
    ensures forall c :: c in SpacesToHyphens(ToLowerAscii(name)) ==> c != ' ' && !IsUpperAscii(c)
  {
    var h := SpacesToHyphens(ToLowerAscii(name));
    forall c | c in h ensures c != ' ' && !IsUpperAscii(c) {
      var i :| 0 <= i < |h| && h[i] == c;
    }
  }

  /** Slugging a slug gives it back. */
  lemma SlugIdempotent(name: string)
    ensures GenerateSlug(GenerateSlug(name)) == GenerateSlug(name)
  {
    var s := GenerateSlug(name);
    assert ToLowerAscii(s) == s by {
      forall i | 0 <= i < |s| ensures LowerChar(s[i]) == s[i] {
        assert s[i] in s;
      }
    }
    assert SpacesToHyphens(s) == s by {
      forall i | 0 <= i < |s| ensures s[i] != ' ' {
        assert s[i] in s;
      }
    }
    ExpandWithoutAmpersand(s);
    TrimTrimmed(s);
  }

  /** A first character that is not white space survives the trim. */
  lemma TrimKeepsFirst(e: string)
    requires e != [] && !IsWhiteSpace(e[0])
    ensures Trim(e) != [] && Trim(e)[0] == e[0]
  {
    assert TrimStart(e) == e;
  }

  /** A last character that is not white space survives the trim. */
  lemma TrimKeepsLast(e: string)
    requires e != [] && !IsWhiteSpace(e[|e| - 1])
    ensures Trim(e) != [] && Trim(e)[|Trim(e)| - 1] == e[|e| - 1]
  {
    var t := TrimStart(e);
    assert t[|t| - 1] == e[|e| - 1];
    assert TrimEnd(t) == t;
  }

  /** Spaces turn into hyphens before the trim, so a leading space survives as '-'. */
  lemma LeadingSpaceBecomesHyphen(name: string)
    requires name != [] && name[0] == ' '
    ensures GenerateSlug(name) != [] && GenerateSlug(name)[0] == '-'
  {
    var h := SpacesToHyphens(ToLowerAscii(name));
    assert h[0] == '-';
    assert h == ['-'] + h[1..];
    ExpandAmpersandsAppend(['-'], h[1..]);
    assert ExpandAmpersands(['-']) == ['-'] + ExpandAmpersands([]);
    var e := ExpandAmpersands(h);
    assert e[0] == '-';
    TrimKeepsFirst(e);
  }

  /** Likewise a trailing space survives as '-'. */
  lemma TrailingSpaceBecomesHyphen(name: string)
    requires name != [] && name[|name| - 1] == ' '
    ensures GenerateSlug(name) != [] && GenerateSlug(name)[|GenerateSlug(name)| - 1] == '-'
  {
    var h := SpacesToHyphens(ToLowerAscii(name));
    var m := |h| - 1;
    assert h[m] == '-';
    assert h == h[..m] + ['-'];
    ExpandAmpersandsAppend(h[..m], ['-']);
    assert ExpandAmpersands(['-']) == ['-'] + ExpandAmpersands([]);
    var e := ExpandAmpersands(h);
    assert e[|e| - 1] == '-';
    TrimKeepsLast(e);
  }

  /** Names that differ only in the case of ASCII letters have the same slug. */
  lemma SlugIgnoresCase(a: string, b: string)
    requires EqualsIgnoreCase(a, b)
    ensures GenerateSlug(a) == GenerateSlug(b)
  {
  }
}
