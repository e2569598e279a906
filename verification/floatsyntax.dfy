/** The decimal strings Rust's `f32::from_str` accepts, restricted to the
    alphabet the coordinate prompt lets a user type: digits, `-` and `.`.

    An optional sign is followed by an integer part and an optional fraction
    introduced by `.`; either part may be empty, but not both. The sign may
    be `+` or `-`, although only `-` can be typed. The full grammar also has
    exponents and the words `inf`, `infinity` and `nan`, none of which can be
    typed into the prompt.
 */
module FloatSyntax {

  predicate IsDigit(c: char) {
    '0' <= c <= '9'
  }

  predicate AllDigits(s: string) {
    forall i | 0 <= i < |s| :: IsDigit(s[i])
  }

  predicate HasDigit(s: string) {
    exists i | 0 <= i < |s| :: IsDigit(s[i])
  }

  /** The string without its leading sign, if it has one. */
  function Unsigned(s: string): (u: string)
    ensures u == s || (|s| > 0 && (s[0] == '-' || s[0] == '+') && u == s[1..])
  {
    if |s| > 0 && (s[0] == '-' || s[0] == '+') then s[1..] else s
  }

  /** `Sign? (Digit+ | Digit* '.' Digit*)`, with at least one digit overall. */
  ghost predicate IsDecimal(s: string) {
    var u := Unsigned(s);
    || (|u| > 0 && AllDigits(u))
    || (exists k | 0 <= k < |u| && u[k] == '.' :: |u| > 1 && AllDigits(u[..k]) && AllDigits(u[k + 1..]))
  }

  /** Strings the grammar accepts, with and without sign, integer part or
      fraction. */
  lemma DecimalAccepts()
    ensures IsDecimal("12") && IsDecimal("-3") && IsDecimal("+5") && IsDecimal("1.") && IsDecimal(".5") && IsDecimal("-.5")
  {
    assert Unsigned("1.") == "1." && "1."[..1] == "1" && "1."[2..] == [];
    assert Unsigned(".5") == ".5" && ".5"[..0] == [] && ".5"[1..] == "5";
    assert Unsigned("-.5") == ".5";
  }

  /** Strings the grammar rejects: no digit at all, or a sign after a digit. */
  lemma DecimalRejects()
    ensures !IsDecimal("") && !IsDecimal("-") && !IsDecimal(".") && !IsDecimal("-.") && !IsDecimal("1-")
  {
    assert Unsigned("-.") == ".";
    assert Unsigned("1-") == "1-" && "1-"[1] == '-';
    assert "1-"[..1] == "1" && "1-"[2..] == [];
  }
}
