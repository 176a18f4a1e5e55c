/** Names of rotated log files: "logs/mylog.txt" with index 3 is "logs/mylog.3.txt". */
module FileNames {
  import DigitGeneration

  const FOLDER_SEP := '/'

  /** rfind: the last position of a character, or -1. */
  function LastIndexOf(s: string, c: char): (i: int)
    ensures -1 <= i < |s|
    ensures i >= 0 ==> s[i] == c
    ensures forall j :: i < j < |s| ==> s[j] != c
  {
    if s == [] then -1
    else if s[|s| - 1] == c then |s| - 1
    else LastIndexOf(s[..|s| - 1], c)
  }

  function SplitByExtension(name: string): (string, string) {
    var ext := LastIndexOf(name, '.');
    if ext == -1 || ext == 0 || ext == |name| - 1 then (name, "")
    else
      var folder := LastIndexOf(name, FOLDER_SEP);
      if folder != -1 && folder >= ext - 1 then (name, "") else (name[..ext], name[ext..])
  }

  /** A stem that does not end a folder, and a dot with at least one more character, none of them '.' or '/'. */
  ghost predicate ProperSplit(stem: string, ext: string) {
    && stem != "" && stem[|stem| - 1] != FOLDER_SEP
    && |ext| >= 2 && ext[0] == '.'
    && (forall i :: 1 <= i < |ext| ==> ext[i] != '.')
    && forall i :: 0 <= i < |ext| ==> ext[i] != FOLDER_SEP
  }

  /** The extension is split off exactly when the name has one, and then there is only one way to do it. */
  lemma {:induction false} SplitExact(name: string, stem: string, ext: string)
    ensures var (x, y) := SplitByExtension(name);
            name == x + y && (y == "" || ProperSplit(x, y))
    ensures name == stem + ext && ProperSplit(stem, ext) ==> SplitByExtension(name) == (stem, ext)
  {
    var dot, folder := LastIndexOf(name, '.'), LastIndexOf(name, FOLDER_SEP);
    assert dot >= 0 ==> name == name[..dot] + name[dot..];
    if name == stem + ext && ProperSplit(stem, ext) {
      assert name[|stem|] == ext[0];
      assert dot == |stem| by {
        assert forall j :: |stem| < j < |name| ==> name[j] == ext[j - |stem|];
      }
      assert folder < |stem| - 1 by {
        assert name[|stem| - 1] == stem[|stem| - 1];
        assert forall j :: |stem| <= j < |name| ==> name[j] == ext[j - |stem|];
      }
      assert name[..dot] == stem && name[dot..] == ext;
    }
  }

  function Digit(n: nat): (c: char)
    requires n < 10
  {
    "0123456789"[n]
  }

  function Numeral(n: nat): (s: string)
    ensures s != ""
  {
    if n < 10 then [Digit(n)] else Numeral(n / 10) + [Digit(n % 10)]
  }

  lemma {:induction false} NumeralInjective(m: nat, n: nat)
    requires Numeral(m) == Numeral(n)
    ensures m == n
  {
    var s := Numeral(m);
    assert s[|s| - 1] == Digit(m % 10) == Digit(n % 10);
    if m >= 10 && n >= 10 {
      assert s[..|s| - 1] == Numeral(m / 10) == Numeral(n / 10);
      NumeralInjective(m / 10, n / 10);
    }
  }

  function CalcFilename(name: string, index: nat): string {
    if index == 0 then name
    else
      var (stem, ext) := SplitByExtension(name);
      stem + "." + Numeral(index) + ext
  }

  /** The numeral is made of digits, without a leading zero, and they evaluate to the number. */
  lemma {:induction false} NumeralValue(n: nat)
    ensures DigitGeneration.AllDigits(Numeral(n)) && DigitGeneration.Decimal(Numeral(n)) == n
    ensures n > 0 ==> Numeral(n)[0] != '0'
  {
    hide Digit, DigitGeneration.Decimal;
    if n < 10 {
      DigitAppended("", n);
      assert "" + [Digit(n)] == Numeral(n);
    } else {
      NumeralValue(n / 10);
      DigitAppended(Numeral(n / 10), n % 10);
    }
  }

  lemma DigitAppended(s: string, k: nat)
    requires DigitGeneration.AllDigits(s) && k < 10
    ensures var t := s + [Digit(k)];
            DigitGeneration.AllDigits(t) && DigitGeneration.Decimal(t) == 10 * DigitGeneration.Decimal(s) + k
    ensures DigitGeneration.Decimal("") == 0 && (k > 0 ==> Digit(k) != '0')
  {
    assert (s + [Digit(k)])[..|s|] == s;
  }

  /** The index goes between the stem and the extension, and after a name that has no extension. */
  lemma CalcFilenameIs(name: string, stem: string, ext: string, index: nat)
    requires index > 0
    ensures name == stem + ext && ProperSplit(stem, ext) ==>
              CalcFilename(name, index) == stem + "." + Numeral(index) + ext
    ensures (forall x, y :: name == x + y ==> !ProperSplit(x, y)) ==>
              CalcFilename(name, index) == name + "." + Numeral(index)
  {
    hide SplitByExtension, ProperSplit, Numeral;
    SplitExact(name, stem, ext);
    var (x, y) := SplitByExtension(name);
    if y == "" {
      assert x + y == x;
      assert name + "." + Numeral(index) + "" == name + "." + Numeral(index);
    }
  }

  /** Different indices name different files. */
  lemma {:induction false} CalcFilenameInjective(name: string, i: nat, j: nat)
    requires CalcFilename(name, i) == CalcFilename(name, j)
    ensures i == j
  {
    hide SplitByExtension, ProperSplit, Numeral;
    SplitExact(name, "", "");
    var (stem, ext) := SplitByExtension(name);
    if i > 0 && j > 0 {
      var a, b, s := Numeral(i), Numeral(j), CalcFilename(name, i);
      assert s == stem + "." + a + ext == stem + "." + b + ext;
      assert |a| == |b|;
      assert s[|stem| + 1..|s| - |ext|] == a;
      assert s[|stem| + 1..|s| - |ext|] == b;
      NumeralInjective(i, j);
    }
  }
}
