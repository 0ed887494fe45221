/**
 * Python's `repr` of a `str`, which the commit hunter writes into its log for
 * every line it cannot parse, together with a decoder for it. The decoder
 * shows that the logged text determines the offending line exactly.
 */
module PyRepr {
  import opened Wrappers

  predicate IsHexDigit(c: char) {
    '0' <= c <= '9' || 'a' <= c <= 'f'
  }

  function HexValue(c: char): (n: nat)
    requires IsHexDigit(c)
    ensures n < 16
  {
    if c <= '9' then c as int - '0' as int else c as int - 'a' as int + 10
  }

  /** The lower-case hexadecimal digit `repr` writes for `n`. */
  function HexDigit(n: nat): (c: char)
    requires n < 16
    ensures IsHexDigit(c) && HexValue(c) == n
  {
    if n < 10 then ('0' as int + n) as char else ('a' as int + n - 10) as char
  }

  /**
   * Characters that `repr` writes as `\xhh` (once backslash, quote, tab,
   * newline and carriage return have been dealt with): the C0 controls, DEL,
   * the C1 controls, the no-break space and the soft hyphen.
   */
  predicate HexEscaped(c: char) {
    c as int < 0x20 || c as int == 0x7F || 0x80 <= c as int <= 0xA0 || c as int == 0xAD
  }

  /** The quote `repr` chooses: a double quote only when `s` has a single quote and no double quote. */
  function Quote(s: string): (q: char)
    ensures q == '\'' || q == '"'
  {
    if '\'' in s && '"' !in s then '"' else '\''
  }

  /** How `repr` writes one character inside the quote `q`. */
  function EscapeChar(c: char, q: char): string {
    if c == q || c == '\\' then ['\\', c]
    else if c == '\t' then ['\\', 't']
    else if c == '\n' then ['\\', 'n']
    else if c == '\r' then ['\\', 'r']
    else if HexEscaped(c) then ['\\', 'x', HexDigit(c as int / 16), HexDigit(c as int % 16)]
    else [c]
  }

  function Escape(s: string, q: char): string {
    if s == [] then [] else EscapeChar(s[0], q) + Escape(s[1..], q)
  }

  /** `repr(s)` for a Python `str`. */
  function Repr(s: string): (r: string)
    ensures |r| >= 2 && r[0] == r[|r| - 1] && (r[0] == '\'' || r[0] == '"')
  {
    [Quote(s)] + Escape(s, Quote(s)) + [Quote(s)]
  }

  function Prepend(c: char, o: Option<string>): Option<string> {
    match o
    case None => None
    case Some(s) => Some([c] + s)
  }

  /** Reads back the escapes `repr` writes; `None` on a malformed escape. */
  function Unescape(t: string): Option<string>
    decreases |t|
  {
    if t == [] then Some([])
    else if t[0] != '\\' then Prepend(t[0], Unescape(t[1..]))
    else if |t| < 2 then None
    else if t[1] == '\\' || t[1] == '\'' || t[1] == '"' then Prepend(t[1], Unescape(t[2..]))
    else if t[1] == 't' then Prepend('\t', Unescape(t[2..]))
    else if t[1] == 'n' then Prepend('\n', Unescape(t[2..]))
    else if t[1] == 'r' then Prepend('\r', Unescape(t[2..]))
    else if t[1] == 'x' && |t| >= 4 && IsHexDigit(t[2]) && IsHexDigit(t[3]) then
      Prepend((16 * HexValue(t[2]) + HexValue(t[3])) as char, Unescape(t[4..]))
    else None
  }

  /** The text between matching outer quotes, unescaped. */
  function Unrepr(r: string): Option<string> {
    if |r| >= 2 && (r[0] == '\'' || r[0] == '"') && r[|r| - 1] == r[0] then Unescape(r[1..|r| - 1])
    else None
  }

  /** A `\xhh` escape reads back as the character it encodes. */
  lemma UnescapeHex(c: char, t: string)
    requires c as int < 0x100
    ensures Unescape(['\\', 'x', HexDigit(c as int / 16), HexDigit(c as int % 16)] + t) == Prepend(c, Unescape(t))
  {
    var hi, lo := HexDigit(c as int / 16), HexDigit(c as int % 16);
    var e := ['\\', 'x', hi, lo] + t;
    assert e[0] == '\\' && e[1] == 'x' && e[2] == hi && e[3] == lo && e[4..] == t;
    assert (16 * HexValue(hi) + HexValue(lo)) as char == c;
  }

  /** A two-character escape reads back as the character it stands for. */
  lemma UnescapePair(c: char, x: char, t: string)
    requires (x == c && (c == '\\' || c == '\'' || c == '"'))
      || (x == 't' && c == '\t') || (x == 'n' && c == '\n') || (x == 'r' && c == '\r')
    ensures Unescape(['\\', x] + t) == Prepend(c, Unescape(t))
  {
    var e := ['\\', x] + t;
    assert e[0] == '\\' && e[1] == x && e[2..] == t;
  }

  lemma UnescapeChar(c: char, q: char, t: string)
    requires q == '\'' || q == '"'
    ensures Unescape(EscapeChar(c, q) + t) == Prepend(c, Unescape(t))
  {
    if c == q || c == '\\' {
      UnescapePair(c, c, t);
    } else if c == '\t' {
      UnescapePair(c, 't', t);
    } else if c == '\n' {
      UnescapePair(c, 'n', t);
    } else if c == '\r' {
      UnescapePair(c, 'r', t);
    } else if HexEscaped(c) {
      UnescapeHex(c, t);
    } else {
      assert ([c] + t)[0] == c && ([c] + t)[1..] == t;
    }
  }

  lemma {:induction false} UnescapeEscape(s: string, q: char)
    requires q == '\'' || q == '"'
    ensures Unescape(Escape(s, q)) == Some(s)
  {
    if s != [] {
      UnescapeChar(s[0], q, Escape(s[1..], q));
      UnescapeEscape(s[1..], q);
      assert [s[0]] + s[1..] == s;
    }
  }

  /** `repr` loses nothing: reading its output back gives the original string. */
  lemma UnreprRepr(s: string)
    ensures Unrepr(Repr(s)) == Some(s)
  {
    var q := Quote(s);
    assert Repr(s)[1..|Repr(s)| - 1] == Escape(s, q);
    UnescapeEscape(s, q);
  }
}
