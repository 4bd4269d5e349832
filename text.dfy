// String helpers the handlers use: Rust's byte length, the alphanumeric
// check, the emptiness-to-NULL rule, and the random tokens.
module Text {
  import opened Wrappers

  /**
   * Functions of foreign crates, left abstract: Unicode `to_lowercase`,
   * `char::is_alphanumeric`, and bcrypt's `hash` and `verify` (`verify`
   * gives `None` where bcrypt returns an error).
   */
  datatype Primitives = Primitives(
    lower: string -> string,
    isAlphanumeric: char -> bool,
    hash: string -> string,
    verify: (string, string) -> Option<bool>)

  /** Bytes a character occupies in UTF-8. */
  function Utf8Width(c: char): (n: nat)
    ensures 1 <= n <= 4
    ensures n == 1 <==> c as int < 0x80
  {
    if c as int < 0x80 then 1
    else if c as int < 0x800 then 2
    else if c as int < 0x1_0000 then 3
    else 4
  }

  /** Rust's `str::len`: the length of the UTF-8 encoding, not the number of characters. */
  function ByteLen(s: string): (n: nat)
    ensures |s| <= n <= 4 * |s|
  {
    if s == [] then 0 else Utf8Width(s[0]) + ByteLen(s[1..])
  }

  predicate IsAscii(s: string)
  {
    forall i :: 0 <= i < |s| ==> s[i] as int < 0x80
  }

  /** For ASCII text the byte length and the character count agree. */
  lemma {:induction false} ByteLenOfAscii(s: string)
    requires IsAscii(s)
    ensures ByteLen(s) == |s|
  {
    if s != [] {
      assert IsAscii(s[1..]) by {
        forall i | 0 <= i < |s[1..]| ensures s[1..][i] as int < 0x80 {
          assert s[1..][i] == s[i + 1];
        }
      }
      ByteLenOfAscii(s[1..]);
    }
  }

  /** `s.chars().all(char::is_alphanumeric)`; true of the empty string. */
  predicate AllAlphanumeric(s: string, isAlphanumeric: char -> bool)
  {
    forall i :: 0 <= i < |s| ==> isAlphanumeric(s[i])
  }

  /** The handlers' rule that an empty form field is stored as NULL. */
  function NoneIfEmpty(s: string): (r: Option<string>)
    ensures r.None? <==> s == ""
    ensures r.Some? ==> r.value == s
  {
    if s == "" then None else Some(s)
  }

  /** The alphabet of registration and password-reset tokens. */
  const CHARSET := "ABCDEFGHIJKLMNOPQRSTUVWXYZabcdefghijklmnopqrstuvwxyz"
  const TOKEN_LENGTH := 25

  /** Random draws from `gen_range(0..CHARSET.len())`. */
  predicate ValidDraws(draws: seq<int>)
  {
    forall i :: 0 <= i < |draws| ==> 0 <= draws[i] < |CHARSET|
  }

  /** The token `(0..n).map(|_| CHARSET[idx] as char).collect()` built from the draws. */
  function Token(draws: seq<int>): (t: string)
    requires ValidDraws(draws)
    ensures |t| == |draws|
    ensures forall i :: 0 <= i < |t| ==> t[i] in CHARSET
  {
    seq(|draws|, i requires 0 <= i < |draws| => CHARSET[draws[i]])
  }
}
