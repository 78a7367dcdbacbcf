/** Escaping for Telegram's MarkdownV2 style (internal/interactions/telegram/formatter.go). */
module Markdown {

  const BACKSLASH: char := '\\'

  const MARKDOWN_V2_ESCAPES: seq<string> :=
    ["_", "*", "[", "]", "(", ")", "~", "`", ">", "#", "+", "-", "=", "|", "{", "}", ".", "!"]

  /** strings.ReplaceAll: every occurrence of token, found from the left and never overlapping. */
  function ReplaceAll(s: string, token: string, replacement: string): string
    requires token != []
    decreases |s|
  {
    if |s| < |token| then s
    else if s[..|token|] == token then replacement + ReplaceAll(s[|token|..], token, replacement)
    else [s[0]] + ReplaceAll(s[1..], token, replacement)
  }

  /** One pass from left to right that puts a backslash before every character of a set. */
  function EscapeSet(s: string, special: set<char>): string {
    if s == [] then [] else EscapeChar(s[0], special) + EscapeSet(s[1..], special)
  }

  function EscapeChar(c: char, special: set<char>): string {
    if c in special then [BACKSLASH, c] else [c]
  }

  function TokenChars(tokens: seq<string>): set<char> {
    set i | 0 <= i < |tokens| && |tokens[i]| == 1 :: tokens[i][0]
  }

  /** The characters that section "MarkdownV2 style" of the Telegram Bot API reserves, and the
      backslash itself. */
  const RESERVED: set<char> :=
    {'\\', '_', '*', '[', ']', '(', ')', '~', '`', '>', '#', '+', '-', '=', '|', '{', '}', '.', '!'}

  /** Drops each backslash that stands before a character, and keeps that character. */
  function Unescape(s: string): string {
    if s == [] then []
    else if s[0] == BACKSLASH && |s| > 1 then [s[1]] + Unescape(s[2..])
    else [s[0]] + Unescape(s[1..])
  }

  lemma {:induction false} EscapeSetConcat(a: string, b: string, special: set<char>)
    ensures EscapeSet(a + b, special) == EscapeSet(a, special) + EscapeSet(b, special)
  {
    if a == [] {
      assert a + b == b;
    } else {
      EscapeSetConcat(a[1..], b, special);
      assert (a + b)[1..] == a[1..] + b;
      Associative(EscapeChar(a[0], special), EscapeSet(a[1..], special), EscapeSet(b, special));
    }
  }

  lemma Associative(x: string, y: string, z: string)
    ensures x + (y + z) == (x + y) + z
  {
  }

  /** Replacing a single character by itself behind a backslash is a one-pass escape. */
  lemma {:induction false} ReplaceAllIsEscapeSet(s: string, c: char)
    ensures ReplaceAll(s, [c], [BACKSLASH, c]) == EscapeSet(s, {c})
  {
    if s != [] {
      ReplaceAllIsEscapeSet(s[1..], c);
      assert s[..1] == [s[0]];
    }
  }

  /** One more whole-string replacement adds its character to the set, because no earlier
      replacement has produced that character. */
  lemma {:induction false} EscapeSetExtends(s: string, special: set<char>, c: char)
    requires c !in special && c != BACKSLASH
    ensures EscapeSet(EscapeSet(s, special), {c}) == EscapeSet(s, special + {c})
  {
    if s != [] {
      EscapeSetExtends(s[1..], special, c);
      var head := EscapeChar(s[0], special);
      EscapeSetConcat(head, EscapeSet(s[1..], special), {c});
      if s[0] in special {
        assert EscapeSet(head, {c}) == head by {
          assert head[1..] == [s[0]];
        }
      }
    }
  }

  lemma {:induction false} UnescapeInvertsEscapeSet(s: string, special: set<char>)
    requires BACKSLASH in special
    ensures Unescape(EscapeSet(s, special)) == s
  {
    if s != [] {
      UnescapeInvertsEscapeSet(s[1..], special);
      var rest := EscapeSet(s[1..], special);
      if s[0] in special {
        assert EscapeSet(s, special)[2..] == rest;
      } else {
        assert EscapeSet(s, special)[1..] == rest;
      }
    }
  }

  /** The escape table holds single characters, all different and none of them a backslash. */
  lemma EscapeTable(i: nat)
    requires i < |MARKDOWN_V2_ESCAPES|
    ensures |MARKDOWN_V2_ESCAPES[i]| == 1 && MARKDOWN_V2_ESCAPES[i][0] != BACKSLASH
    ensures MARKDOWN_V2_ESCAPES[i][0] !in TokenChars(MARKDOWN_V2_ESCAPES[..i])
    ensures TokenChars(MARKDOWN_V2_ESCAPES[..i + 1])
            == TokenChars(MARKDOWN_V2_ESCAPES[..i]) + {MARKDOWN_V2_ESCAPES[i][0]}
  {
    var shorter, longer := MARKDOWN_V2_ESCAPES[..i], MARKDOWN_V2_ESCAPES[..i + 1];
    assert longer == shorter + [MARKDOWN_V2_ESCAPES[i]];
    forall c | c in TokenChars(shorter) ensures c in TokenChars(longer) {
      var j :| 0 <= j < i && shorter[j] == [c];
      assert longer[j] == [c];
    }
    assert longer[i] == [MARKDOWN_V2_ESCAPES[i][0]];
  }

  lemma TableIsReserved()
    ensures {BACKSLASH} + TokenChars(MARKDOWN_V2_ESCAPES) == RESERVED
  {
    var t := MARKDOWN_V2_ESCAPES;
    assert t[0] == ['_'] && t[1] == ['*'] && t[2] == ['['] && t[3] == [']'] && t[4] == ['('] && t[5] == [')'];
    assert t[6] == ['~'] && t[7] == ['`'] && t[8] == ['>'] && t[9] == ['#'] && t[10] == ['+'] && t[11] == ['-'];
    assert t[12] == ['='] && t[13] == ['|'] && t[14] == ['{'] && t[15] == ['}'] && t[16] == ['.'] && t[17] == ['!'];
  }

  /** The nineteen whole-string replacements are the single pass that prefixes each reserved
      character and each backslash with one backslash. */
  method EscapeMarkdownV2(input: string) returns (result: string)
    ensures result == EscapeSet(input, RESERVED)
    ensures Unescape(result) == input
  {
    result := ReplaceAll(input, [BACKSLASH], [BACKSLASH, BACKSLASH]);
    ReplaceAllIsEscapeSet(input, BACKSLASH);
    assert {BACKSLASH} + TokenChars(MARKDOWN_V2_ESCAPES[..0]) == {BACKSLASH};
    for i := 0 to |MARKDOWN_V2_ESCAPES|
      invariant result == EscapeSet(input, {BACKSLASH} + TokenChars(MARKDOWN_V2_ESCAPES[..i]))
    {
      var token := MARKDOWN_V2_ESCAPES[i];
      ghost var special := {BACKSLASH} + TokenChars(MARKDOWN_V2_ESCAPES[..i]);
      EscapeTable(i);
      assert token == [token[0]];
      assert [BACKSLASH] + token == [BACKSLASH, token[0]];
      ReplaceAllIsEscapeSet(result, token[0]);
      EscapeSetExtends(input, special, token[0]);
      result := ReplaceAll(result, token, [BACKSLASH] + token);
      assert special + {token[0]} == {BACKSLASH} + TokenChars(MARKDOWN_V2_ESCAPES[..i + 1]);
    }
    assert MARKDOWN_V2_ESCAPES[..|MARKDOWN_V2_ESCAPES|] == MARKDOWN_V2_ESCAPES;
    TableIsReserved();
    UnescapeInvertsEscapeSet(input, RESERVED);
  }

  /** The escape, character by character: one of the nineteen gets one backslash before it, any
      other stays as it is; and a text is escaped piece by piece. */
  lemma EscapeIsCharacterwise(c: char, a: string, b: string)
    ensures EscapeSet([c], RESERVED) == if c in "\\_*[]()~`>#+-=|{}.!" then "\\" + [c] else [c]
    ensures EscapeSet("", RESERVED) == ""
    ensures EscapeSet(a + b, RESERVED) == EscapeSet(a, RESERVED) + EscapeSet(b, RESERVED)
  {
    var all := "\\_*[]()~`>#+-=|{}.!";
    assert c in RESERVED <==> c in all by {
      assert all[0] == '\\' && all[1] == '_' && all[2] == '*' && all[3] == '[' && all[4] == ']' && all[5] == '(';
      assert all[6] == ')' && all[7] == '~' && all[8] == '`' && all[9] == '>' && all[10] == '#' && all[11] == '+';
      assert all[12] == '-' && all[13] == '=' && all[14] == '|' && all[15] == '{' && all[16] == '}' && all[17] == '.';
      assert all[18] == '!';
    }
    EscapeSetConcat(a, b, RESERVED);
  }

  /** Escaped texts differ whenever the texts do. */
  lemma EscapeIsInjective(a: string, b: string)
    requires EscapeSet(a, RESERVED) == EscapeSet(b, RESERVED)
    ensures a == b
  {
    UnescapeInvertsEscapeSet(a, RESERVED);
    UnescapeInvertsEscapeSet(b, RESERVED);
  }

  /** In escaped text a reserved character never stands bare: each one is the second half of a
      pair that a left-to-right reader meets as backslash and character. */
  predicate FullyEscaped(s: string, special: set<char>) {
    if s == [] then true
    else if s[0] == BACKSLASH then |s| > 1 && s[1] in special && FullyEscaped(s[2..], special)
    else s[0] !in special && FullyEscaped(s[1..], special)
  }

  lemma {:induction false} EscapedTextHasNoBareCharacter(s: string, special: set<char>)
    requires BACKSLASH in special
    ensures FullyEscaped(EscapeSet(s, special), special)
  {
    if s != [] {
      EscapedTextHasNoBareCharacter(s[1..], special);
      var rest := EscapeSet(s[1..], special);
      if s[0] in special {
        assert EscapeSet(s, special)[2..] == rest;
      } else {
        assert EscapeSet(s, special)[1..] == rest;
      }
    }
  }
}
