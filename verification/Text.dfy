/** String operations the tools and the turn loop are built from:
    Python's `str.lower()` (on the characters described at `IsUpper`),
    `str.replace(" ", "")`, the truthiness of an optional string, and
    f-string templates of the shape prefix + value + suffix together with
    the inverse that reads the value back out of a rendered template. */
module Text {
  import opened Wrappers

  /** Python's truthiness of an `Optional[str]`: present and non-empty. */
  predicate Truthy(s: Option<string>): (b: bool)
    ensures !b <==> s == None || s == Some("")
  {
    s.Some? && s.value != ""
  }

  /** The upper-case letters this model lowers: ASCII A-Z, the Latin-1
      capitals U+00C0..U+00DE except the multiplication sign U+00D7, and the
      remaining capitals of the Vietnamese alphabet (Ă Đ Ĩ Ũ Ơ Ư and the
      even code points U+1EA0..U+1EF8 of Latin Extended Additional). */
  predicate IsUpper(c: char) {
    || ('A' <= c <= 'Z')
    || ('\U{00C0}' <= c <= '\U{00DE}' && c != '\U{00D7}')
    || c == '\U{0102}' || c == '\U{0110}' || c == '\U{0128}'
    || c == '\U{0168}' || c == '\U{01A0}' || c == '\U{01AF}'
    || ('\U{1EA0}' <= c <= '\U{1EF8}' && (c as int) % 2 == 0)
  }

  /** The lower-case partner of one character; characters that are not
      upper-case letters are left as they are. */
  function LowerChar(c: char): (r: char)
    ensures !IsUpper(r)
    ensures !IsUpper(c) ==> r == c
    ensures IsUpper(c) ==> r != c
    ensures r == ' ' <==> c == ' '
  {
    if ('A' <= c <= 'Z') || ('\U{00C0}' <= c <= '\U{00DE}' && c != '\U{00D7}') then
      (c as int + 32) as char
    else if IsUpper(c) then
      (c as int + 1) as char
    else
      c
  }

  /** `s.lower()`: every character replaced by its lower-case partner, so
      the result holds no upper-case letter, and a string that holds none is
      its own lower-case form (lowering is idempotent). */
  function Lower(s: string): (r: string)
    ensures |r| == |s|
    ensures forall c :: c in r ==> !IsUpper(c)
    ensures (forall c :: c in s ==> !IsUpper(c)) ==> r == s
  {
    seq(|s|, i requires 0 <= i < |s| => LowerChar(s[i]))
  }

  /** Lowering a one-character string lowers that character. */
  lemma LowerSingle(c: char)
    ensures Lower([c]) == [LowerChar(c)]
  {
  }

  /** Lowering distributes over concatenation. With LowerSingle this fixes
      the result of Lower on every string: each character is lowered where
      it stands. */
  lemma {:induction false} LowerAppend(a: string, b: string)
    ensures Lower(a + b) == Lower(a) + Lower(b)
  {
  }

  /** `s.replace(" ", "")`: every U+0020 space dropped, nothing else touched. */
  function RemoveSpaces(s: string): (r: string)
    ensures ' ' !in r
    ensures |r| <= |s|
    ensures ' ' !in s ==> r == s
  {
    if s == [] then []
    else
      assert s == [s[0]] + s[1..];
      if s[0] == ' ' then RemoveSpaces(s[1..]) else [s[0]] + RemoveSpaces(s[1..])
  }

  /** Removing spaces keeps every other character, as often as it occurs. */
  lemma {:induction false} RemoveSpacesCounts(s: string)
    ensures multiset(RemoveSpaces(s)) == multiset(s)[' ' := 0]
  {
    if s != [] {
      assert s == [s[0]] + s[1..];
      RemoveSpacesCounts(s[1..]);
    }
  }

  /** Removing spaces keeps the order of the remaining characters: it
      distributes over concatenation. */
  lemma {:induction false} RemoveSpacesAppend(a: string, b: string)
    ensures RemoveSpaces(a + b) == RemoveSpaces(a) + RemoveSpaces(b)
  {
    if a != [] {
      assert (a + b)[1..] == a[1..] + b;
      RemoveSpacesAppend(a[1..], b);
    } else {
      assert a + b == b;
    }
  }

  /** Dropping the one space between two space-free strings joins them. */
  lemma {:induction false} RemoveOneSpace(a: string, b: string)
    requires ' ' !in a && ' ' !in b
    ensures RemoveSpaces(a + " " + b) == a + b
  {
    var sb := " " + b;
    assert a + " " + b == a + sb;
    RemoveSpacesAppend(a, sb);
    assert sb[0] == ' ' && sb[1..] == b;
    assert RemoveSpaces(sb) == RemoveSpaces(b);
  }

  /** Lowering and dropping spaces can be done in either order. */
  lemma {:induction false} LowerRemoveSpacesCommute(s: string)
    ensures Lower(RemoveSpaces(s)) == RemoveSpaces(Lower(s))
  {
    if s != [] {
      var c, rest := s[0], s[1..];
      assert s == [c] + rest;
      LowerRemoveSpacesCommute(rest);
      LowerAppend([c], rest);
      LowerSingle(c);
      assert Lower(s) == [LowerChar(c)] + Lower(rest);
      RemoveSpacesAppend([LowerChar(c)], Lower(rest));
      RemoveSpacesAppend([c], rest);
      if c != ' ' {
        LowerAppend([c], RemoveSpaces(rest));
      }
    }
  }

  /** Reads the value back out of a rendered `prefix + value + suffix`
      template; None when `s` does not have that shape. */
  function Unquote(prefix: string, suffix: string, s: string): (r: Option<string>)
    ensures r.Some? ==> s == prefix + r.value + suffix
  {
    if |prefix| + |suffix| <= |s| && s[..|prefix|] == prefix && s[|s| - |suffix|..] == suffix then
      var v := s[|prefix|..|s| - |suffix|];
      assert s == s[..|prefix|] + v + s[|s| - |suffix|..];
      Some(v)
    else
      None
  }

  /** Rendering a template and reading it back returns the value. Together
      with the ensures of Unquote: Unquote(p, q, s) == Some(x) iff
      s == p + x + q. */
  lemma {:induction false} UnquoteQuote(prefix: string, suffix: string, x: string)
    ensures Unquote(prefix, suffix, prefix + x + suffix) == Some(x)
  {
  }

  /** A template tells its values apart. */
  lemma {:induction false} QuoteInjective(prefix: string, suffix: string, x: string, y: string)
    ensures prefix + x + suffix == prefix + y + suffix <==> x == y
  {
    if prefix + x + suffix == prefix + y + suffix {
      UnquoteQuote(prefix, suffix, x);
      UnquoteQuote(prefix, suffix, y);
    }
  }
}
