/** Character classes and string helpers used by the server (.NET) and by the
    client (JavaScript).  The two platforms disagree on what whitespace is. */
module Text {
  import opened Common

  /** .NET `char.IsWhiteSpace`: the Unicode categories Zs, Zl and Zp, plus
      U+0009..U+000D, U+0085 and U+00A0. */
  predicate IsDotNetWhiteSpace(c: char) {
    || ('\t' <= c <= '\r')
    || c == ' ' || c == '\U{0085}' || c == '\U{00A0}' || c == '\U{1680}'
    || ('\U{2000}' <= c <= '\U{200A}')
    || c == '\U{2028}' || c == '\U{2029}' || c == '\U{202F}' || c == '\U{205F}' || c == '\U{3000}'
  }

  /** Every character of `s` satisfies `p`. */
  predicate All(s: string, p: char -> bool) {
    forall i :: 0 <= i < |s| ==> p(s[i])
  }

  /** .NET `string.IsNullOrWhiteSpace`. */
  predicate IsNullOrWhiteSpace(s: Option<string>) {
    s.None? || All(s.value, IsDotNetWhiteSpace)
  }

  /** The characters JavaScript's `String.prototype.trim` strips: WhiteSpace
      (TAB, VT, FF, U+FEFF and every Zs character) and LineTerminator
      (LF, CR, U+2028, U+2029). */
  predicate IsJsWhiteSpace(c: char) {
    || c == '\t' || c == '\n' || c == '\U{000B}' || c == '\U{000C}' || c == '\r'
    || c == ' ' || c == '\U{00A0}' || c == '\U{1680}'
    || ('\U{2000}' <= c <= '\U{200A}')
    || c == '\U{2028}' || c == '\U{2029}' || c == '\U{202F}' || c == '\U{205F}'
    || c == '\U{3000}' || c == '\U{FEFF}'
  }

  /** `s` without its leading characters that satisfy `p`. */
  function DropLeading(s: string, p: char -> bool): (r: string)
    ensures r != [] ==> !p(r[0])
  {
    if s == [] then []
    else if p(s[0]) then DropLeading(s[1..], p)
    else s
  }

  /** `s` without its trailing characters that satisfy `p`. */
  function DropTrailing(s: string, p: char -> bool): (r: string)
    ensures r != [] ==> !p(r[|r| - 1])
  {
    if s == [] then []
    else if p(s[|s| - 1]) then DropTrailing(s[..|s| - 1], p)
    else s
  }

  lemma {:induction false} DropLeadingEmptyIffAll(s: string, p: char -> bool)
    ensures DropLeading(s, p) == [] <==> All(s, p)
  {
    if s != [] && p(s[0]) {
      DropLeadingEmptyIffAll(s[1..], p);
      assert All(s, p) <==> All(s[1..], p) by {
        if All(s[1..], p) {
          forall i | 0 <= i < |s| ensures p(s[i]) {
            if i > 0 { assert s[i] == s[1..][i - 1]; }
          }
        }
      }
    }
  }

  lemma {:induction false} DropTrailingEmptyIffAll(s: string, p: char -> bool)
    ensures DropTrailing(s, p) == [] <==> All(s, p)
  {
    if s != [] && p(s[|s| - 1]) {
      var init := s[..|s| - 1];
      DropTrailingEmptyIffAll(init, p);
      assert All(s, p) <==> All(init, p) by {
        if All(init, p) {
          forall i | 0 <= i < |s| ensures p(s[i]) {
            if i < |s| - 1 { assert s[i] == init[i]; }
          }
        }
      }
    }
  }

  /** JavaScript `s.trim()`. */
  function Trim(s: string): string {
    DropTrailing(DropLeading(s, IsJsWhiteSpace), IsJsWhiteSpace)
  }

  predicate IsJsBlank(s: string) {
    All(s, IsJsWhiteSpace)
  }

  /** `!title.trim()` holds exactly when every character of the title is
      JavaScript whitespace (the empty title included). */
  lemma TrimEmptyIffBlank(s: string)
    ensures Trim(s) == [] <==> IsJsBlank(s)
  {
    DropLeadingEmptyIffAll(s, IsJsWhiteSpace);
    DropTrailingEmptyIffAll(DropLeading(s, IsJsWhiteSpace), IsJsWhiteSpace);
  }

  /** Array.prototype.join: the parts with `sep` between consecutive ones. */
  function Join(parts: seq<string>, sep: string): string
  {
    if |parts| == 0 then ""
    else if |parts| == 1 then parts[0]
    else parts[0] + sep + Join(parts[1..], sep)
  }

  /** Joining two non-empty lists is joining their joins. */
  lemma {:induction false} JoinAppend(a: seq<string>, b: seq<string>, sep: string)
    requires a != [] && b != []
    ensures Join(a + b, sep) == Join(a, sep) + sep + Join(b, sep)
  {
    if |a| == 1 {
      assert (a + b)[1..] == b;
    } else {
      assert (a + b)[1..] == a[1..] + b;
      JoinAppend(a[1..], b, sep);
    }
  }

  /** A join with a non-empty separator is empty only for no parts or for a
      single empty part. */
  lemma JoinEmpty(parts: seq<string>, sep: string)
    requires sep != ""
    ensures Join(parts, sep) == "" <==> parts == [] || (|parts| == 1 && parts[0] == "")
  {
  }

  /** A title the client lets through whose server-side [Required] check fails,
      and one the client drops that the server would accept. */
  lemma WhiteSpaceSetsDiffer()
    ensures !IsJsBlank("\U{0085}") && IsNullOrWhiteSpace(Some("\U{0085}"))
    ensures IsJsBlank("\U{FEFF}") && !IsNullOrWhiteSpace(Some("\U{FEFF}"))
  {
    assert "\U{0085}"[0] == '\U{0085}';
    assert "\U{FEFF}"[0] == '\U{FEFF}';
  }
}
