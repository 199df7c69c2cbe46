/** Writing a C string in double quotes with every backslash doubled
    (fprintf_str_esc_backslash). The output stream is modelled as the
    sequence of characters written to it. */
module Escape {
  import opened Wrappers

  /** The characters of a NUL-terminated string up to (not including) its first NUL. */
  function CString(str: seq<char>): (s: seq<char>)
    ensures '\0' !in s
    ensures '\0' in str ==> |s| < |str| && str[|s|] == '\0' && s == str[..|s|]
    ensures '\0' !in str ==> s == str
  {
    if str == [] || str[0] == '\0' then [] else [str[0]] + CString(str[1..])
  }

  /** Each character in order, a backslash written twice. */
  function Escaped(s: seq<char>): (e: seq<char>)
  {
    if s == [] then []
    else (if s[0] == '\\' then ['\\', '\\'] else [s[0]]) + Escaped(s[1..])
  }

  /** Reading a doubled backslash back as one character; None when a
      backslash stands alone, which Escaped never produces. */
  function Unescaped(e: seq<char>): (u: Option<seq<char>>)
  {
    if e == [] then Some([])
    else if e[0] != '\\' then
      match Unescaped(e[1..])
      case Some(rest) => Some([e[0]] + rest)
      case None => None
    else if |e| >= 2 && e[1] == '\\' then
      match Unescaped(e[2..])
      case Some(rest) => Some(['\\'] + rest)
      case None => None
    else None
  }

  /** Number of occurrences of `c` in `s`. */
  function Count(s: seq<char>, c: char): (n: nat)
  {
    if s == [] then 0 else (if s[0] == c then 1 else 0) + Count(s[1..], c)
  }

  lemma {:induction false} EscapedAppend(s: seq<char>, c: char)
    ensures Escaped(s + [c]) == Escaped(s) + (if c == '\\' then ['\\', '\\'] else [c])
  {
    if s == [] {
      assert s + [c] == [c];
    } else {
      assert (s + [c])[1..] == s[1..] + [c];
      EscapedAppend(s[1..], c);
    }
  }

  /** Unescaping the escaped text gives back the original: no information is lost. */
  lemma {:induction false} UnescapeEscaped(s: seq<char>)
    ensures Unescaped(Escaped(s)) == Some(s)
  {
    if s != [] {
      UnescapeEscaped(s[1..]);
      var e := Escaped(s);
      if s[0] == '\\' {
        assert e[2..] == Escaped(s[1..]);
      } else {
        assert e[1..] == Escaped(s[1..]);
      }
      assert [s[0]] + s[1..] == s;
    }
  }

  /** Only backslashes are escaped: the output is one character longer per backslash,
      and no other character (a double quote included) is added. */
  lemma {:induction false} EscapedCounts(s: seq<char>, c: char)
    ensures |Escaped(s)| == |s| + Count(s, '\\')
    ensures c != '\\' ==> Count(Escaped(s), c) == Count(s, c)
    ensures Count(Escaped(s), '\\') == 2 * Count(s, '\\')
  {
    if s != [] {
      EscapedCounts(s[1..], c);
      var head := if s[0] == '\\' then ['\\', '\\'] else [s[0]];
      CountAppend(head, Escaped(s[1..]), c);
      CountAppend(head, Escaped(s[1..]), '\\');
    }
  }

  lemma {:induction false} CountAppend(a: seq<char>, b: seq<char>, c: char)
    ensures Count(a + b, c) == Count(a, c) + Count(b, c)
  {
    if a == [] {
      assert a + b == b;
    } else {
      assert (a + b)[1..] == a[1..] + b;
      CountAppend(a[1..], b, c);
    }
  }

  /** The characters fprintf_str_esc_backslash writes for `str`: an opening quote,
      the string up to its NUL with backslashes doubled, a closing quote. */
  method FprintfStrEscBackslash(str: seq<char>) returns (out: seq<char>)
    requires '\0' in str
    ensures out == ['"'] + Escaped(CString(str)) + ['"']
  {
    out := ['"'];
    var i := 0;
    while str[i] != '\0'
      invariant 0 <= i <= |CString(str)|
      invariant str[..i] == CString(str)[..i]
      invariant out == ['"'] + Escaped(str[..i])
      decreases |CString(str)| - i
    {
      var ch := str[i];
      out := out + [ch];
      if ch == '\\' {
        out := out + ['\\'];
      }
      EscapedAppend(str[..i], ch);
      assert str[..i + 1] == str[..i] + [ch];
      i := i + 1;
    }
    assert str[..i] == CString(str);
    out := out + ['"'];
  }
}
