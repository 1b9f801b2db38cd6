/** The set of target countries, from a single `-c CODE` argument or from
    the lines of a `-l FILE` list. */
module Countries {
  import opened Text

  /** What the command line selected: one code, or the lines of a file. */
  datatype Selection = Country(code: string) | CodeList(lines: seq<string>)

  /** `s.strip().upper()`. */
  function Normalize(s: string): string {
    Upper(Strip(s))
  }

  /** Two letters (`len(code) == 2 and code.isalpha()`). */
  predicate IsCode(c: string) {
    |c| == 2 && IsLetter(c[0]) && IsLetter(c[1])
  }

  /** The codes a list file contributes: each line that normalizes to two
      letters, normalized. */
  function ListedCodes(lines: seq<string>): set<string> {
    set l | l in lines && IsCode(Normalize(l)) :: Normalize(l)
  }

  predicate UpperCode(c: string) {
    |c| == 2 && 'A' <= c[0] <= 'Z' && 'A' <= c[1] <= 'Z'
  }

  /** Normalized text has no lower-case ASCII letter, so a normalized code
      is two upper-case letters. */
  lemma NormalizedCodeUpper(l: string)
    requires IsCode(Normalize(l))
    ensures UpperCode(Normalize(l))
  {
    var c := Normalize(l);
    assert c[0] == UpperChar(Strip(l)[0]) && c[1] == UpperChar(Strip(l)[1]);
  }

  /** The target set: a non-empty single code is used as given after
      normalization (it is not checked to be two letters); an empty one
      selects nothing; from a list only lines that normalize to two letters
      count. */
  method TargetCountries(sel: Selection) returns (countries: set<string>)
    ensures sel.Country? ==> countries == (if sel.code == "" then {} else {Normalize(sel.code)})
    ensures sel.CodeList? ==> countries == ListedCodes(sel.lines)
    ensures sel.CodeList? ==> forall c :: c in countries ==> UpperCode(c)
  {
    countries := {};
    match sel
    case Country(code) =>
      if code != "" {
        countries := countries + {Normalize(code)};
      }
    case CodeList(lines) =>
      for i := 0 to |lines|
        invariant countries == ListedCodes(lines[..i])
        invariant forall c :: c in countries ==> UpperCode(c)
      {
        assert lines[..i + 1] == lines[..i] + [lines[i]];
        var code := Normalize(lines[i]);
        if IsCode(code) {
          NormalizedCodeUpper(lines[i]);
          countries := countries + {code};
        }
      }
      assert lines[..|lines|] == lines;
  }
}
