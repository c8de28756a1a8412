/**
 * `quitar_tildes` (app/estimation.py lines 12-17): upper-case a name, then
 * decompose it (NFKD) and keep only its ASCII characters.  Characters are
 * restricted to ASCII plus the accented letters of Spanish place names.
 */
module Names {
  import opened Wrappers
  import Seqs

  predicate IsAscii(c: char) { c as int < 128 }

  predicate IsLowerAscii(c: char) { 'a' <= c <= 'z' }

  /** The lower-case accented letters of the modelled alphabet. */
  predicate IsLowerAccented(c: char)
  {
    c == 'á' || c == 'é' || c == 'í' || c == 'ó' || c == 'ú' || c == 'ü' || c == 'ñ'
  }

  /** The upper-case accented letters of the modelled alphabet. */
  predicate IsUpperAccented(c: char)
  {
    c == 'Á' || c == 'É' || c == 'Í' || c == 'Ó' || c == 'Ú' || c == 'Ü' || c == 'Ñ'
  }

  /** A character of the modelled alphabet. */
  predicate InAlphabet(c: char) { IsAscii(c) || IsLowerAccented(c) || IsUpperAccented(c) }

  /** What a normalised name is made of: ASCII with no lower-case letter. */
  predicate IsNormalized(s: string)
  {
    forall i :: 0 <= i < |s| ==> IsAscii(s[i]) && !IsLowerAscii(s[i])
  }

  /**
   * The letter a character of the modelled alphabet stands for, in upper
   * case and without its accent; what `quitar_tildes` is meant to leave of it.
   */
  function BaseUpper(c: char): (b: char)
    ensures InAlphabet(c) ==> IsAscii(b) && !IsLowerAscii(b)
  {
    if 'a' <= c <= 'z' then (c as int - 32) as char
    else if c == 'á' || c == 'Á' then 'A'
    else if c == 'é' || c == 'É' then 'E'
    else if c == 'í' || c == 'Í' then 'I'
    else if c == 'ó' || c == 'Ó' then 'O'
    else if c == 'ú' || c == 'Ú' || c == 'ü' || c == 'Ü' then 'U'
    else if c == 'ñ' || c == 'Ñ' then 'N'
    else c
  }

  /** `str.upper` on one character of the modelled alphabet; other characters are left as they are. */
  function UpperChar(c: char): (u: char)
    ensures IsLowerAscii(c) ==> u as int == c as int - 32
    ensures c == 'á' ==> u == 'Á'
    ensures c == 'é' ==> u == 'É'
    ensures c == 'í' ==> u == 'Í'
    ensures c == 'ó' ==> u == 'Ó'
    ensures c == 'ú' ==> u == 'Ú'
    ensures c == 'ü' ==> u == 'Ü'
    ensures c == 'ñ' ==> u == 'Ñ'
    ensures !IsLowerAscii(c) && !IsLowerAccented(c) ==> u == c
    ensures !IsLowerAscii(u) && !IsLowerAccented(u)
    ensures IsAscii(c) <==> IsAscii(u)
    ensures InAlphabet(c) <==> InAlphabet(u)
  {
    if IsLowerAscii(c) then (c as int - 32) as char
    else if c == 'á' then 'Á'
    else if c == 'é' then 'É'
    else if c == 'í' then 'Í'
    else if c == 'ó' then 'Ó'
    else if c == 'ú' then 'Ú'
    else if c == 'ü' then 'Ü'
    else if c == 'ñ' then 'Ñ'
    else c
  }

  /**
   * NFKD followed by `encode("ASCII", "ignore")` on one character: ASCII is
   * kept, an accented letter leaves its base letter in its own case (the
   * combining mark is dropped), and any other character leaves nothing.
   */
  function AsciiFold(c: char): (r: string)
    ensures |r| <= 1
    ensures forall i :: 0 <= i < |r| ==> IsAscii(r[i])
    ensures !IsLowerAscii(c) && !IsLowerAccented(c) ==> forall i :: 0 <= i < |r| ==> !IsLowerAscii(r[i])
    ensures InAlphabet(c) ==> |r| == 1
    ensures IsAscii(c) ==> r == [c]
    ensures IsUpperAccented(c) ==> r == [BaseUpper(c)]
    ensures IsLowerAccented(c) ==> |r| == 1 && r[0] as int == BaseUpper(c) as int + 32
    ensures !InAlphabet(c) ==> r == []
  {
    if IsAscii(c) then [c]
    else if c == 'Á' then "A"
    else if c == 'É' then "E"
    else if c == 'Í' then "I"
    else if c == 'Ó' then "O"
    else if c == 'Ú' || c == 'Ü' then "U"
    else if c == 'Ñ' then "N"
    else if c == 'á' then "a"
    else if c == 'é' then "e"
    else if c == 'í' then "i"
    else if c == 'ó' then "o"
    else if c == 'ú' || c == 'ü' then "u"
    else if c == 'ñ' then "n"
    else ""
  }

  /** Decompose and drop everything that is not ASCII. */
  function StripDiacritics(s: string): (r: string)
    ensures |r| <= |s|
    ensures forall i :: 0 <= i < |r| ==> IsAscii(r[i])
    ensures (forall i :: 0 <= i < |s| ==> !IsLowerAscii(s[i]) && !IsLowerAccented(s[i])) ==> IsNormalized(r)
    ensures (forall i :: 0 <= i < |s| ==> InAlphabet(s[i])) ==> |r| == |s|
    decreases |s|
  {
    if s == [] then [] else AsciiFold(s[0]) + StripDiacritics(s[1..])
  }

  /** `str.upper` on a string. */
  function Upper(s: string): (r: string)
    ensures |r| == |s|
    ensures forall i :: 0 <= i < |s| ==> r[i] == UpperChar(s[i])
    ensures forall i :: 0 <= i < |r| ==> !IsLowerAscii(r[i]) && !IsLowerAccented(r[i])
    ensures forall i :: 0 <= i < |s| ==> (InAlphabet(s[i]) <==> InAlphabet(r[i]))
    ensures forall i :: 0 <= i < |s| ==> (IsAscii(s[i]) && !IsLowerAscii(s[i]) ==> r[i] == s[i])
  {
    Seqs.Map(UpperChar, s)
  }

  /**
   * `quitar_tildes`: a missing value is returned unchanged; a present one is
   * upper-cased without accents: over the modelled alphabet, character by
   * character the base letter in upper case.
   */
  function QuitarTildes(v: Option<string>): (r: Option<string>)
    ensures v.None? <==> r.None?
    ensures v.Some? ==> IsNormalized(r.value) && |r.value| <= |v.value|
    ensures v.Some? && (forall i :: 0 <= i < |v.value| ==> InAlphabet(v.value[i])) ==>
      |r.value| == |v.value| && forall i :: 0 <= i < |v.value| ==> r.value[i] == BaseUpper(v.value[i])
  {
    match v
    case None => None
    case Some(s) =>
      AlphabetLetters(s);
      Some(StripDiacritics(Upper(s)))
  }

  /** Over the alphabet, folding keeps one character per input character: the fold of that character. */
  lemma {:induction false} StripAlphabet(s: string)
    requires forall i :: 0 <= i < |s| ==> InAlphabet(s[i])
    ensures |StripDiacritics(s)| == |s|
    ensures forall i :: 0 <= i < |s| ==> [StripDiacritics(s)[i]] == AsciiFold(s[i])
    decreases |s|
  {
    if s != [] {
      StripAlphabet(s[1..]);
      var r, rest := StripDiacritics(s), StripDiacritics(s[1..]);
      assert r == AsciiFold(s[0]) + rest;
      forall i | 1 <= i < |s| ensures [r[i]] == AsciiFold(s[i]) {
        assert r[i] == rest[i - 1];
        assert s[1..][i - 1] == s[i];
      }
    }
  }

  /** Upper-casing and then folding a character of the alphabet leaves its base letter. */
  lemma FoldUpperIsBase(c: char)
    requires InAlphabet(c)
    ensures AsciiFold(UpperChar(c)) == [BaseUpper(c)]
  {
  }

  /** Over the alphabet, `quitar_tildes` maps each character to its upper-case base letter. */
  lemma AlphabetLetters(s: string)
    ensures (forall i :: 0 <= i < |s| ==> InAlphabet(s[i])) ==>
      |StripDiacritics(Upper(s))| == |s| && forall i :: 0 <= i < |s| ==> StripDiacritics(Upper(s))[i] == BaseUpper(s[i])
  {
    if forall i :: 0 <= i < |s| ==> InAlphabet(s[i]) {
      var u := Upper(s);
      assert forall i :: 0 <= i < |u| ==> u[i] == UpperChar(s[i]);
      StripAlphabet(u);
      forall i | 0 <= i < |s| ensures StripDiacritics(u)[i] == BaseUpper(s[i]) {
        FoldUpperIsBase(s[i]);
      }
    }
  }

  /** Decomposing an ASCII string changes nothing. */
  lemma {:induction false} StripAscii(s: string)
    requires forall i :: 0 <= i < |s| ==> IsAscii(s[i])
    ensures StripDiacritics(s) == s
    decreases |s|
  {
    if s != [] {
      StripAscii(s[1..]);
      assert s == [s[0]] + s[1..];
    }
  }

  /** The values `quitar_tildes` leaves unchanged are exactly the normalised names. */
  lemma QuitarTildesFixedPoint(s: string)
    ensures QuitarTildes(Some(s)) == Some(s) <==> IsNormalized(s)
  {
    if IsNormalized(s) {
      assert Upper(s) == s;
      StripAscii(s);
    }
  }

  /** Normalising a normalised name returns it unchanged. */
  lemma QuitarTildesIdempotent(v: Option<string>)
    ensures QuitarTildes(QuitarTildes(v)) == QuitarTildes(v)
  {
    if v.Some? {
      QuitarTildesFixedPoint(QuitarTildes(v).value);
    }
  }

  /** A name over the alphabet normalises to the string of its upper-case base letters. */
  lemma NormalizesTo(s: string, t: string)
    requires forall i :: 0 <= i < |s| ==> InAlphabet(s[i])
    requires |t| == |s| && forall i :: 0 <= i < |s| ==> t[i] == BaseUpper(s[i])
    ensures QuitarTildes(Some(s)) == Some(t)
  {
    var r := QuitarTildes(Some(s)).value;
    assert forall i :: 0 <= i < |s| ==> r[i] == BaseUpper(s[i]);
    assert r == t;
  }

  /** "Niño" becomes "NINO". */
  lemma NinoExample()
    ensures QuitarTildes(Some("Niño")) == Some("NINO")
  {
    UpperNino();
    StripNino();
  }

  lemma UpperNino()
    ensures Upper("Niño") == "NIÑO"
  {
    var s, u := "Niño", "NIÑO";
    forall i | 0 <= i < |s| ensures Upper(s)[i] == u[i] {
      assert Upper(s)[i] == UpperChar(s[i]);
    }
  }

  lemma StripNino()
    ensures StripDiacritics("NIÑO") == "NINO"
  {
  }

  /** Department spellings of the worked examples, as a shapefile may hold them, and their normal forms. */
  const DepartmentSpellings: seq<string> := ["Apurímac", "Cusco"]
  const NormalizedDepartments: seq<string> := ["APURIMAC", "CUSCO"]

  /** Each example spelling normalises to its upper-case unaccented form. */
  lemma DepartmentSpelling(k: nat)
    requires k < |DepartmentSpellings|
    ensures QuitarTildes(Some(DepartmentSpellings[k])) == Some(NormalizedDepartments[k])
  {
    if k == 0 {
      NormalizesTo("Apurímac", "APURIMAC");
    } else {
      NormalizesTo("Cusco", "CUSCO");
    }
  }

  /** The department names of the worked examples, normalised. */
  lemma ExampleNames()
    ensures QuitarTildes(Some("Apurímac")) == Some("APURIMAC") && QuitarTildes(Some("Cusco")) == Some("CUSCO")
  {
    DepartmentSpelling(0);
    DepartmentSpelling(1);
  }

  /** The district names of the worked examples, normalised. */
  lemma LetterNames()
    ensures QuitarTildes(Some("á")) == Some("A") && QuitarTildes(Some("b")) == Some("B")
  {
    NormalizesTo("á", "A");
    NormalizesTo("b", "B");
  }
}
