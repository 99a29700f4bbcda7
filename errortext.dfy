/** Classifying a failed file upload: the error message is written as a JSON
    string, lower-cased and searched for the phrase "already exists". */
module ErrorText {
  import opened Types

  const Phrase: string := "already exists"

  function HexDigit(d: int): char
    requires 0 <= d < 16
  {
    if d < 10 then (48 + d) as char else (87 + d) as char
  }

  /** How a JSON string literal writes one character: quote and backslash are
      escaped, the control characters get a short or a `\u00xx` escape, and
      every other character stands for itself. */
  function EscapeChar(c: char): string {
    if c == '"' then "\\\""
    else if c == '\\' then "\\\\"
    else if c == '\U{8}' then "\\b"
    else if c == '\U{C}' then "\\f"
    else if c == '\n' then "\\n"
    else if c == '\r' then "\\r"
    else if c == '\t' then "\\t"
    else if c < ' ' then "\\u00" + [HexDigit(c as int / 16), HexDigit(c as int % 16)]
    else [c]
  }

  function Escape(s: string): string {
    if s == [] then [] else EscapeChar(s[0]) + Escape(s[1..])
  }

  /** `JSON.stringify` of a string: the escaped text between double quotes. */
  function Quote(s: string): string {
    "\"" + Escape(s) + "\""
  }

  function LowerChar(c: char): char {
    if 'A' <= c <= 'Z' then (c as int + 32) as char else c
  }

  /** `toLowerCase`, on the ASCII letters: the result has no upper-case
      letter, every upper-case letter moves 32 code points up to its
      lower-case form, and every other character is kept. */
  function Lower(s: string): (r: string)
    ensures |r| == |s|
    ensures forall i :: 0 <= i < |r| ==> !('A' <= r[i] <= 'Z')
    ensures forall i :: 0 <= i < |s| && 'A' <= s[i] <= 'Z' ==> r[i] as int == s[i] as int + 32
    ensures forall i :: 0 <= i < |s| && !('A' <= s[i] <= 'Z') ==> r[i] == s[i]
  {
    seq(|s|, i requires 0 <= i < |s| => LowerChar(s[i]))
  }

  /** Lower-casing twice is lower-casing once. */
  lemma LowerIdempotent(s: string)
    ensures Lower(Lower(s)) == Lower(s)
  {
  }

  /** `s.indexOf(pattern) >= 0`. */
  predicate Contains(s: string, pattern: string) {
    |pattern| <= |s| && (s[..|pattern|] == pattern || Contains(s[1..], pattern))
  }

  /** How the catch handler classifies a rejected upload from its
      `error.message`: `None` when the message is missing, because
      `JSON.stringify(undefined)` is not a string and `.toLowerCase()` throws;
      otherwise whether the message names an existing file. */
  function IsAlreadyExists(message: Option<string>): (r: Option<bool>)
    ensures r.None? <==> message.None?
  {
    if message.None? then None else Some(Contains(Lower(Quote(message.value)), Phrase))
  }

  /** `pattern` occurs in `s` starting at index `k`. */
  predicate OccursAt(s: string, pattern: string, k: nat) {
    k + |pattern| <= |s| && s[k..k + |pattern|] == pattern
  }

  /** The search finds the pattern exactly when it occurs at some index. */
  lemma {:induction false} ContainsIff(s: string, pattern: string)
    ensures Contains(s, pattern) <==> exists k: nat :: OccursAt(s, pattern, k)
    decreases |s|
  {
    if |pattern| <= |s| && s[..|pattern|] != pattern {
      ContainsIff(s[1..], pattern);
      if exists k: nat :: OccursAt(s, pattern, k) {
        var k: nat :| OccursAt(s, pattern, k);
        assert k > 0;
        assert s[1..][k - 1..k - 1 + |pattern|] == s[k..k + |pattern|];
        assert OccursAt(s[1..], pattern, k - 1);
      }
      if Contains(s[1..], pattern) {
        var k: nat :| OccursAt(s[1..], pattern, k);
        assert s[k + 1..k + 1 + |pattern|] == s[1..][k..k + |pattern|];
        assert OccursAt(s, pattern, k + 1);
      }
    } else if |pattern| <= |s| {
      assert OccursAt(s, pattern, 0);
    }
  }

  lemma {:induction false} ContainsAt(s: string, pattern: string, k: nat)
    requires k + |pattern| <= |s| && s[k..k + |pattern|] == pattern
    ensures Contains(s, pattern)
    decreases k
  {
    if k > 0 {
      assert s[1..][k - 1..k - 1 + |pattern|] == s[k..k + |pattern|];
      ContainsAt(s[1..], pattern, k - 1);
    }
  }

  lemma {:induction false} EscapeAppend(a: string, b: string)
    ensures Escape(a + b) == Escape(a) + Escape(b)
    decreases |a|
  {
    if a == [] {
      assert a + b == b;
    } else {
      assert (a + b)[0] == a[0];
      assert (a + b)[1..] == a[1..] + b;
      EscapeAppend(a[1..], b);
    }
  }

  /** A character JSON writes as itself. */
  predicate Plain(c: char) {
    ' ' <= c && c != '"' && c != '\\'
  }

  /** A text made only of plain characters is written unchanged inside a
      JSON string. */
  lemma {:induction false} EscapePlain(s: string)
    requires forall i :: 0 <= i < |s| ==> Plain(s[i])
    ensures Escape(s) == s
    decreases |s|
  {
    if s != [] {
      EscapePlain(s[1..]);
      assert s == [s[0]] + s[1..];
    }
  }

  /** Whatever lower-cases to the phrase consists of plain characters. */
  lemma PhraseSourcePlain(m: string)
    requires Lower(m) == Phrase
    ensures forall i :: 0 <= i < |m| ==> Plain(m[i])
  {
    var letters := ['a', 'l', 'r', 'e', 'd', 'y', ' ', 'x', 'i', 's', 't'];
    assert forall i :: 0 <= i < |Phrase| ==> Phrase[i] in letters;
    forall i | 0 <= i < |m|
      ensures Plain(m[i])
    {
      assert LowerChar(m[i]) == Phrase[i];
    }
  }

  /** Lower-casing keeps a window in place: where `q` holds, at offset `k`, a
      text that lower-cases to the phrase, the lower-cased `q` holds the phrase. */
  lemma LowerWindow(q: string, m: string, k: nat)
    requires k + |m| <= |q| && q[k..k + |m|] == m && Lower(m) == Phrase
    ensures Contains(Lower(q), Phrase)
  {
    var lq := Lower(q);
    forall i | 0 <= i < |Phrase|
      ensures lq[k + i] == Phrase[i]
    {
      assert q[k + i] == m[i];
    }
    assert lq[k..k + |Phrase|] == Phrase;
    ContainsAt(lq, Phrase, k);
  }

  /** Escaping a text around a plain middle part keeps that part as it is. */
  lemma EscapeAround(before: string, m: string, after: string)
    requires forall i :: 0 <= i < |m| ==> Plain(m[i])
    ensures Escape(before + m + after) == Escape(before) + m + Escape(after)
  {
    assert Escape(before + m) == Escape(before) + m by {
      EscapePlain(m);
      EscapeAppend(before, m);
    }
    EscapeAppend(before + m, after);
  }

  /** Where a middle part sits inside a quoted text. */
  lemma QuotedLayout(q: string, head: string, m: string, tail: string)
    requires q == "\"" + (head + m + tail) + "\""
    ensures 1 + |head| + |m| <= |q| && q[1 + |head|..1 + |head| + |m|] == m
  {
    assert q == ("\"" + head) + m + (tail + "\"");
    SliceOfConcat("\"" + head, m, tail + "\"");
  }

  /** A plain text keeps its place inside the JSON form of a longer message:
      it follows the opening quote and the escaped text before it. */
  lemma QuoteKeepsPlain(before: string, m: string, after: string)
    requires forall i :: 0 <= i < |m| ==> Plain(m[i])
    ensures var q := Quote(before + m + after); var k := 1 + |Escape(before)|;
      k + |m| <= |q| && q[k..k + |m|] == m
  {
    EscapeAround(before, m, after);
    QuotedLayout(Quote(before + m + after), Escape(before), m, Escape(after));
  }

  lemma SliceOfConcat(x: string, m: string, y: string)
    ensures (x + m + y)[|x|..|x| + |m|] == m
  {
  }

  /** Every message that contains the phrase, in any mix of upper and lower
      case, is classified as an existing file. */
  lemma AlreadyExistsDetected(before: string, m: string, after: string)
    requires Lower(m) == Phrase
    ensures IsAlreadyExists(Some(before + m + after)) == Some(true)
  {
    PhraseSourcePlain(m);
    QuoteKeepsPlain(before, m, after);
    LowerWindow(Quote(before + m + after), m, 1 + |Escape(before)|);
  }

  /** For a message of plain characters the classification is exact: it is
      an existing file iff the lower-cased message contains the phrase. */
  lemma PlainMessageClassified(m: string)
    requires forall i :: 0 <= i < |m| ==> Plain(m[i])
    ensures IsAlreadyExists(Some(m)) == Some(Contains(Lower(m), Phrase))
  {
    LowerQuotePlain(m);
    assert Phrase[0] == 'a' && Phrase[|Phrase| - 1] == 's';
    ContainsInQuotes(Lower(m), Phrase);
  }

  /** The JSON form of a plain message, lower-cased, is the lower-cased
      message between quotes. */
  lemma LowerQuotePlain(m: string)
    requires forall i :: 0 <= i < |m| ==> Plain(m[i])
    ensures Lower(Quote(m)) == ['"'] + Lower(m) + ['"']
  {
    EscapePlain(m);
    assert Quote(m) == ['"'] + m + ['"'];
    var lq, l := Lower(Quote(m)), Lower(m);
    forall i | 0 <= i < |lq|
      ensures lq[i] == (['"'] + l + ['"'])[i]
    {
      if 0 < i <= |m| {
        assert Quote(m)[i] == m[i - 1];
      }
    }
  }

  /** Quotes around a text add no match for a pattern that neither starts
      nor ends with a quote. */
  lemma ContainsInQuotes(l: string, pattern: string)
    requires |pattern| > 0 && pattern[0] != '"' && pattern[|pattern| - 1] != '"'
    ensures Contains(['"'] + l + ['"'], pattern) <==> Contains(l, pattern)
  {
    var lq := ['"'] + l + ['"'];
    ContainsIff(l, pattern);
    ContainsIff(lq, pattern);
    if Contains(l, pattern) {
      var k: nat :| OccursAt(l, pattern, k);
      OccursInQuotes(l, pattern, k);
    }
    if Contains(lq, pattern) {
      var k: nat :| OccursAt(lq, pattern, k);
      OccursOutOfQuotes(l, pattern, k);
    }
  }

  lemma OccursInQuotes(l: string, pattern: string, k: nat)
    requires OccursAt(l, pattern, k)
    ensures OccursAt(['"'] + l + ['"'], pattern, k + 1)
  {
    var lq := ['"'] + l + ['"'];
    assert lq[k + 1..k + 1 + |pattern|] == l[k..k + |pattern|];
  }

  lemma OccursOutOfQuotes(l: string, pattern: string, k: nat)
    requires |pattern| > 0 && pattern[0] != '"' && pattern[|pattern| - 1] != '"'
    requires OccursAt(['"'] + l + ['"'], pattern, k)
    ensures k > 0 && OccursAt(l, pattern, k - 1)
  {
    var lq := ['"'] + l + ['"'];
    assert lq[k] == pattern[0] && lq[k + |pattern| - 1] == pattern[|pattern| - 1];
    assert 0 < k && k + |pattern| < |lq|;
    assert l[k - 1..k - 1 + |pattern|] == lq[k..k + |pattern|];
  }

  /** U+001A is written as the six characters `\u001a`. */
  lemma EscapeOfControlChar()
    ensures Escape(['\U{1A}']) == "\\u001a"
  {
    assert HexDigit(1) == '1' && HexDigit(10) == 'a';
    assert EscapeChar('\U{1A}') == "\\u00" + ['1', 'a'];
    assert ['\U{1A}'][1..] == [];
  }

  /** The JSON escaping can also create a match the message does not have:
      a control character U+001A written as `\u001a` lends its final `a` to
      the rest of the message. So U+001A followed by any text that
      lower-cases to "lready exists" is classified as an existing file,
      although the message does not contain the phrase. */
  lemma EscapeCreatesMatch(rest: string)
    requires Lower(rest) == Phrase[1..]
    ensures !Contains(Lower(['\U{1A}'] + rest), Phrase)
    ensures IsAlreadyExists(Some(['\U{1A}'] + rest)) == Some(true)
  {
    ControlCharLacksPhrase(rest);
    var window := ['a'] + rest;
    LowerAfterA(rest);
    PhraseSourcePlain(window);
    assert forall i :: 0 <= i < |rest| ==> Plain(rest[i]) by {
      assert forall i :: 0 <= i < |rest| ==> rest[i] == window[i + 1];
    }
    ControlCharQuoted(rest);
    LowerWindow(Quote(['\U{1A}'] + rest), window, 6);
  }

  /** A message starting with U+001A and one character shorter than the
      phrase does not contain it. */
  lemma ControlCharLacksPhrase(rest: string)
    requires |rest| == |Phrase| - 1
    ensures !Contains(Lower(['\U{1A}'] + rest), Phrase)
  {
    var l := Lower(['\U{1A}'] + rest);
    assert l[0] != Phrase[0];
    assert |l[1..]| < |Phrase|;
  }

  /** Putting `a` before a text that lower-cases to "lready exists" gives a
      text that lower-cases to the phrase. */
  lemma LowerAfterA(rest: string)
    requires Lower(rest) == Phrase[1..]
    ensures Lower(['a'] + rest) == Phrase
  {
    var window := ['a'] + rest;
    forall i | 0 <= i < |Phrase|
      ensures Lower(window)[i] == Phrase[i]
    {
      if i > 0 {
        assert window[i] == rest[i - 1];
        assert Lower(rest)[i - 1] == Phrase[i];
      }
    }
  }

  /** The JSON form of U+001A followed by a plain text holds `a` and that
      text from offset 6 on: the `a` ends the escape `\u001a`. */
  lemma ControlCharQuoted(rest: string)
    requires forall i :: 0 <= i < |rest| ==> Plain(rest[i])
    ensures var q := Quote(['\U{1A}'] + rest);
      7 + |rest| <= |q| && q[6..7 + |rest|] == ['a'] + rest
  {
    var m := ['\U{1A}'] + rest;
    var q := Quote(m);
    EscapeOfControlChar();
    assert m + [] == m;
    QuoteKeepsPlain(['\U{1A}'], rest, []);
    assert q[7..7 + |rest|] == rest;
    assert q[6] == 'a' by {
      EscapeAround(['\U{1A}'], rest, []);
      assert q == "\"" + ("\\u001a" + rest + Escape([])) + "\"";
    }
  }

  /** A witness: "\U{1A}lready exists" itself. */
  lemma EscapeCreatesMatchExample()
    ensures Lower("lready exists") == Phrase[1..]
  {
    assert forall i :: 0 <= i < |Phrase| ==> !('A' <= Phrase[i] <= 'Z');
  }
}
