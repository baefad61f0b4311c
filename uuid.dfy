/** The store key `Uuid::new_v4().to_string()` (src/app.rs:171): a random
    version-4 UUID in the hyphenated lower-case form of RFC 9562, section 4,
    for example `f81d4fae-7dec-41d0-a765-00a0c91e6bf6`. Its random bits are an
    input of the model; only its shape matters here. */
module Uuid {

  predicate IsLowerHex(c: char) {
    ('0' <= c <= '9') || ('a' <= c <= 'f')
  }

  predicate IsHyphenPosition(i: int) {
    i == 8 || i == 13 || i == 18 || i == 23
  }

  /** 36 characters: 32 lower-case hex digits in groups of 8-4-4-4-12, the
      version digit `4` and a variant digit from `89ab`. */
  predicate IsHyphenated(s: string) {
    && |s| == 36
    && (forall i :: 0 <= i < 36 ==> if IsHyphenPosition(i) then s[i] == '-' else IsLowerHex(s[i]))
    && s[14] == '4'
    && s[19] in "89ab"
  }

  /** Such an identifier contains no `:`, so it cannot contain the token's
      separator. */
  lemma HyphenatedHasNoColon(s: string)
    requires IsHyphenated(s)
    ensures ':' !in s
  {
  }
}
