/**
 * The Ecuadorian cédula check: ten ASCII digits, a province code from 1 to 24
 * in the first two, and a tenth digit that completes a weighted sum of the
 * first nine to a multiple of ten. Even positions (counting from 0) weigh 2,
 * with 9 taken off a product above 9; odd positions weigh 1.
 */
module Cedula {
  import opened Text
  import Security

  /** The weighted value of digit `d` at position `i`. */
  function Term(i: nat, d: nat): (k: nat)
    requires d <= 9
    ensures k <= 9
    ensures i % 2 == 1 ==> k == d
    ensures i % 2 == 0 ==> k % 9 == (2 * d) % 9 && (d == 9 ==> k == 9) && (k == 0 <==> d == 0)
  {
    if i % 2 == 0 then (if 2 * d > 9 then 2 * d - 9 else 2 * d) else d
  }

  predicate AreDigitValues(ds: seq<nat>) {
    forall i :: 0 <= i < |ds| ==> ds[i] <= 9
  }

  /** `list(map(int, s))` on a string of ASCII digits. */
  function DigitValues(s: string): (ds: seq<nat>)
    requires AllDigits(s)
    ensures |ds| == |s| && AreDigitValues(ds)
  {
    seq(|s|, i requires 0 <= i < |s| => DigitValue(s[i]))
  }

  /** The sum of the weighted terms of the digits, position by position. */
  function WeightedSum(ds: seq<nat>): (sum: nat)
    requires AreDigitValues(ds)
    ensures sum <= 9 * |ds|
  {
    if ds == [] then 0 else WeightedSum(ds[..|ds| - 1]) + Term(|ds| - 1, ds[|ds| - 1])
  }

  /**
   * The distance from the sum up to the next multiple of ten, as the source
   * computes it: a digit that completes the sum to a multiple of ten.
   */
  function CheckDigit(sum: nat): (d: nat)
    ensures d <= 9 && (sum + d) % 10 == 0
  {
    var decena := ((sum + 9) / 10) * 10;
    var q, r := sum / 10, sum % 10;
    assert sum == 10 * q + r && 0 <= r < 10;
    if r == 0 then
      assert sum + 9 == 10 * q + 9;
      assert decena == 10 * q;
      (decena - sum) % 10
    else
      assert sum + 9 == 10 * (q + 1) + (r - 1);
      assert decena == 10 * (q + 1);
      assert decena - sum == 10 - r;
      (decena - sum) % 10
  }

  /** The check digit of the first nine digits of `id`. */
  function ExpectedCheckDigit(id: string): nat
    requires |id| >= 9 && AllDigits(id[..9])
  {
    CheckDigit(WeightedSum(DigitValues(id[..9])))
  }

  /** What the algorithm accepts. */
  predicate IsValidCedula(cedula: string): (r: bool)
    ensures r ==> Security.WellFormedId(cedula)
  {
    && |cedula| == 10
    && AllDigits(cedula)
    && Security.IsProvince(Security.ProvinceCode(cedula))
    && DigitValue(cedula[9]) == ExpectedCheckDigit(cedula)
  }

  /** No other digit completes the sum to a multiple of ten. */
  lemma CheckDigitIsUnique(sum: nat, d: nat)
    requires d <= 9 && (sum + d) % 10 == 0
    ensures d == CheckDigit(sum)
  {
    var c := CheckDigit(sum);
    var r := sum % 10;
    assert (r + d) % 10 == 0 && (r + c) % 10 == 0;
    assert 0 <= r + d < 19 && 0 <= r + c < 19;
  }

  /** The check digit is also `(10 - sum % 10) % 10`. */
  lemma CheckDigitCompletesTen(sum: nat)
    ensures CheckDigit(sum) == (10 - sum % 10) % 10
  {
    var d := (10 - sum % 10) % 10;
    assert d <= 9;
    assert sum == 10 * (sum / 10) + sum % 10;
    if sum % 10 == 0 {
      assert d == 0;
    } else {
      assert d == 10 - sum % 10;
      assert sum + d == 10 * (sum / 10 + 1);
    }
    CheckDigitIsUnique(sum, d);
  }

  /** With nine digits the sum is at most 81. */
  lemma NineDigitSumAtMost81(ds: seq<nat>)
    requires |ds| == 9 && AreDigitValues(ds)
    ensures WeightedSum(ds) <= 81
  {
  }

  /** Appending a tenth character keeps the province code and the check digit of the first nine. */
  lemma AppendCheckCharacter(prefix: string, c: char)
    requires |prefix| == 9 && AllDigits(prefix) && IsDigit(c)
    ensures var id := prefix + [c];
      && AllDigits(id) && id[9] == c
      && Security.ProvinceCode(id) == Security.ProvinceCode(prefix)
      && ExpectedCheckDigit(id) == ExpectedCheckDigit(prefix)
  {
    var id := prefix + [c];
    assert id[..9] == prefix;
    assert id[..2] == prefix[..2];
    assert forall i :: 0 <= i < 9 ==> id[i] == prefix[i];
    assert prefix[..9] == prefix;
  }

  /**
   * For any nine digits that start with a province code, exactly one tenth
   * digit makes a valid cédula: the check digit.
   */
  lemma ExactlyOneCheckDigit(prefix: string)
    requires |prefix| == 9 && AllDigits(prefix)
    requires Security.IsProvince(Security.ProvinceCode(prefix))
    ensures forall c :: IsDigit(c) ==> (IsValidCedula(prefix + [c]) <==> DigitValue(c) == ExpectedCheckDigit(prefix))
    ensures IsValidCedula(prefix + [DigitChar(ExpectedCheckDigit(prefix))])
  {
    forall c | IsDigit(c)
      ensures IsValidCedula(prefix + [c]) <==> DigitValue(c) == ExpectedCheckDigit(prefix)
    {
      AppendCheckCharacter(prefix, c);
    }
  }

  /** Replacing the check digit of a valid cédula by any other character makes it invalid. */
  lemma ChangedCheckDigitIsInvalid(cedula: string, c: char)
    requires IsValidCedula(cedula) && c != cedula[9]
    ensures !IsValidCedula(cedula[..9] + [c])
  {
    var id := cedula[..9] + [c];
    assert id[..9] == cedula[..9];
    if IsDigit(c) && IsDigit(cedula[9]) {
      assert DigitValue(c) != DigitValue(cedula[9]);
    }
  }

  /** Everything this check accepts also passes the RUC format check. */
  lemma ValidCedulaIsWellFormedId(cedula: string)
    requires IsValidCedula(cedula)
    ensures Security.ValidateRucFormat(cedula) == Security.FormatCheck(true, "")
  {
  }

  /**
   * The source's validator: pops the check digit off the digit list and adds up
   * the weighted terms of the remaining nine in a loop.
   */
  method ValidarCedulaEcuatoriana(cedula: string) returns (valid: bool)
    ensures valid == IsValidCedula(cedula)
    ensures |cedula| != 10 || !AllDigits(cedula) ==> !valid
    ensures (|cedula| == 10 && AllDigits(cedula) && !Security.IsProvince(Security.ProvinceCode(cedula))) ==> !valid
  {
    if |cedula| != 10 || !AllDigits(cedula) {
      return false;
    }
    var provincia := DecimalValue(cedula[..2]);
    if provincia < 1 || provincia > 24 {
      return false;
    }
    var digitos := DigitValues(cedula);
    var verificador := digitos[9];
    digitos := digitos[..9];
    assert digitos == DigitValues(cedula[..9]);
    var suma := 0;
    for i := 0 to |digitos|
      invariant suma == WeightedSum(digitos[..i])
    {
      assert digitos[..i + 1][..i] == digitos[..i];
      if i % 2 == 0 {
        var k := digitos[i] * 2;
        if k > 9 {
          k := k - 9;
        }
        suma := suma + k;
      } else {
        suma := suma + digitos[i];
      }
    }
    assert digitos[..|digitos|] == digitos;
    var decena := ((suma + 9) / 10) * 10;
    valid := (decena - suma) % 10 == verificador;
  }

  /** The record the public validation endpoint returns. */
  datatype CedulaReport = CedulaReport(cedula: string, valida: bool, mensaje: string)

  const MsgValid := "Cédula válida"
  const MsgInvalid := "Cédula inválida según algoritmo ecuatoriano"

  /** Echo the input, say whether it is valid, and word the answer to match. */
  method ValidarCedulaEcuatorianaSync(cedula: string) returns (r: CedulaReport)
    ensures r.cedula == cedula
    ensures r.valida == IsValidCedula(cedula)
    ensures r.mensaje == MsgValid <==> r.valida
    ensures !r.valida ==> r.mensaje == MsgInvalid
  {
    var esValida := ValidarCedulaEcuatoriana(cedula);
    r := CedulaReport(cedula, esValida, if esValida then MsgValid else MsgInvalid);
  }
}
