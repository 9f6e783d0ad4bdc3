/** `fix_local_chars`: Romanian s and t with cedilla rewritten as the
    comma-below letters. */
module LocalChars {
  import opened PyStr

  const SCedilla: char := '\U{015F}'        // ş
  const SCedillaUpper: char := '\U{015E}'   // Ş
  const TCedilla: char := '\U{0163}'        // ţ
  const TCedillaUpper: char := '\U{0162}'   // Ţ
  const SComma: char := '\U{0219}'          // ș
  const SCommaUpper: char := '\U{0218}'     // Ș
  const TComma: char := '\U{021B}'          // ț
  const TCommaUpper: char := '\U{021A}'     // Ț

  predicate IsCedilla(c: char)
  {
    c == SCedilla || c == SCedillaUpper || c == TCedilla || c == TCedillaUpper
  }

  /** The per-letter table the four replacements amount to. */
  function LocalChar(c: char): (d: char)
    ensures !IsCedilla(d)
    ensures !IsCedilla(c) ==> d == c
  {
    if c == SCedilla then SComma
    else if c == SCedillaUpper then SCommaUpper
    else if c == TCedilla then TComma
    else if c == TCedillaUpper then TCommaUpper
    else c
  }

  /** The source's chain of four `str.replace` calls. */
  function FixLocalChars(text: string): (r: string)
    ensures |r| == |text|
    ensures forall i | 0 <= i < |text| :: r[i] == LocalChar(text[i])
  {
    Replace(Replace(Replace(Replace(text, SCedilla, SComma), SCedillaUpper, SCommaUpper),
                    TCedilla, TComma), TCedillaUpper, TCommaUpper)
  }

  /** No cedilla letter survives, and every other character is kept. */
  lemma FixLocalCharsClean(text: string)
    ensures forall i | 0 <= i < |text| :: !IsCedilla(FixLocalChars(text)[i])
    ensures forall i | 0 <= i < |text| && !IsCedilla(text[i]) :: FixLocalChars(text)[i] == text[i]
  {
  }

  lemma FixLocalCharsIdempotent(text: string)
    ensures FixLocalChars(FixLocalChars(text)) == FixLocalChars(text)
  {
  }
}
