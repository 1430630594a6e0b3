/**
 * `escapeHtml`: the widget's only defence when it writes card and note titles
 * into markup. Each of the five characters `&`, `"`, `'`, `<` and `>` is
 * replaced by its character reference; every other character is kept.
 */
module Escape {

  /** The characters the replacement pattern matches. */
  predicate IsSpecial(c: char)
  {
    c == '&' || c == '"' || c == '\'' || c == '<' || c == '>'
  }

  /** The replacement of one character: its reference when special, else itself. */
  function Replacement(c: char): (r: string)
    ensures |r| >= 1
    ensures IsSpecial(c) <==> r[0] == '&'
    ensures !IsSpecial(c) ==> r == [c]
  {
    match c
    case '&' => "&amp;"
    case '"' => "&quot;"
    case '\'' => "&#39;"
    case '<' => "&lt;"
    case '>' => "&gt;"
    case _ => [c]
  }

  /** `t` starts with one of the five references. */
  predicate StartsWithReference(t: string)
  {
    "&amp;" <= t || "&quot;" <= t || "&#39;" <= t || "&lt;" <= t || "&gt;" <= t
  }

  /** One of the five references begins at position `i` of `s`. */
  predicate ReferenceAt(s: string, i: nat)
  {
    i <= |s| && StartsWithReference(s[i..])
  }

  /** A `&` inside a replacement is its first character, and a reference starts there. */
  lemma ReplacementAmpersand(c: char, t: string, i: nat)
    requires i < |Replacement(c)| && Replacement(c)[i] == '&'
    ensures i == 0 && ReferenceAt(Replacement(c) + t, 0)
  {
  }

  /** A reference in `tail` is still one after `head` is put in front of it. */
  lemma ReferenceShift(head: string, tail: string, i: nat)
    requires ReferenceAt(tail, i)
    ensures ReferenceAt(head + tail, |head| + i)
  {
  }

  /** The markup-significant characters that must never reach the output. */
  predicate IsMarkup(c: char)
  {
    c == '<' || c == '>' || c == '"' || c == '\''
  }

  /**
   * `escapeHtml(s)`: no `<`, `>`, `"` or `'` survives, every `&` of the
   * output begins one of the five references, and the output is no shorter
   * than the input.
   */
  function EscapeHtml(s: string): (r: string)
    ensures |r| >= |s|
    ensures forall i :: 0 <= i < |r| ==> !IsMarkup(r[i])
    ensures forall i: nat :: i < |r| && r[i] == '&' ==> ReferenceAt(r, i)
  {
    if s == [] then []
    else
      var tail := EscapeHtml(s[1..]);
      ReplacementThenEscaped(s[0], tail);
      Replacement(s[0]) + tail
  }

  /** A replacement in front of escaped text gives escaped text. */
  lemma ReplacementThenEscaped(c: char, tail: string)
    requires forall i :: 0 <= i < |tail| ==> !IsMarkup(tail[i])
    requires forall i: nat :: i < |tail| && tail[i] == '&' ==> ReferenceAt(tail, i)
    ensures var r := Replacement(c) + tail;
      && (forall i :: 0 <= i < |r| ==> !IsMarkup(r[i]))
      && (forall i: nat :: i < |r| && r[i] == '&' ==> ReferenceAt(r, i))
  {
    var head := Replacement(c);
    var r := head + tail;
    forall i: nat | i < |r| && r[i] == '&'
      ensures ReferenceAt(r, i)
    {
      if i < |head| {
        ReplacementAmpersand(c, tail, i);
      } else {
        assert r[i] == tail[i - |head|];
        ReferenceShift(head, tail, i - |head|);
      }
    }
  }

  /** Escaping a concatenation escapes each part: characters stay in order. */
  lemma {:induction false} EscapeAppend(a: string, b: string)
    ensures EscapeHtml(a + b) == EscapeHtml(a) + EscapeHtml(b)
  {
    if a == [] {
      assert a + b == b;
    } else {
      assert (a + b)[1..] == a[1..] + b;
      EscapeAppend(a[1..], b);
    }
  }

  /** Text without any of the five special characters is left as it is. */
  lemma {:induction false} EscapePlainText(s: string)
    requires forall i :: 0 <= i < |s| ==> !IsSpecial(s[i])
    ensures EscapeHtml(s) == s
  {
    if s != [] {
      EscapePlainText(s[1..]);
    }
  }

  /**
   * The character a browser decodes at the front of `s`, and how many
   * characters of `s` it takes: one of the five references, or else one
   * character standing for itself.
   */
  function DecodeHead(s: string): (d: (char, nat))
    requires s != []
    ensures 1 <= d.1 <= |s|
  {
    if "&amp;" <= s then ('&', 5)
    else if "&quot;" <= s then ('"', 6)
    else if "&#39;" <= s then ('\'', 5)
    else if "&lt;" <= s then ('<', 4)
    else if "&gt;" <= s then ('>', 4)
    else (s[0], 1)
  }

  /**
   * The decoding a browser applies to the five references (and to nothing
   * else), the inverse that `escapeHtml` is written against.
   */
  function Unescape(s: string): string
    decreases |s|
  {
    if s == [] then []
    else
      var d := DecodeHead(s);
      [d.0] + Unescape(s[d.1..])
  }

  /** A replacement decodes back to its character, and takes all of itself. */
  lemma DecodeReplacement(c: char, t: string)
    ensures DecodeHead(Replacement(c) + t) == (c, |Replacement(c)|)
  {
    var s := Replacement(c) + t;
    match c
    case '&' => assert "&amp;" <= s;
    case '"' => assert s[1] == 'q' && "&quot;" <= s;
    case '\'' => assert s[1] == '#' && "&#39;" <= s;
    case '<' => assert s[1] == 'l' && "&lt;" <= s;
    case '>' => assert s[1] == 'g' && "&gt;" <= s;
    case _ => assert s[0] == c && !StartsWithReference(s);
  }

  lemma UnescapeReplacement(c: char, t: string)
    ensures Unescape(Replacement(c) + t) == [c] + Unescape(t)
  {
    var s := Replacement(c) + t;
    DecodeReplacement(c, t);
    assert s[|Replacement(c)|..] == t;
  }

  /** Decoding the escaped text gives back the original text. */
  lemma {:induction false} UnescapeEscape(s: string)
    ensures Unescape(EscapeHtml(s)) == s
  {
    if s != [] {
      UnescapeEscape(s[1..]);
      UnescapeReplacement(s[0], EscapeHtml(s[1..]));
    }
  }
}
