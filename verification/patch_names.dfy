// Patch filenames and the orders they carry: the numeric prefix rules of src/core/patch-parse.ts
// that queue placement relies on.
module PatchNames {
  import opened Prelude

  predicate IsDigit(c: char) { '0' <= c <= '9' }

  function DigitOf(n: nat): char
    requires n < 10
  {
    '0' + n as char
  }

  function ValueOf(c: char): nat
    requires IsDigit(c)
  {
    (c - '0') as nat
  }

  predicate AllDigits(text: string) {
    forall i | 0 <= i < |text| :: IsDigit(text[i])
  }

  // `String(n)`
  function Decimal(n: nat): (text: string)
    ensures |text| > 0 && AllDigits(text)
  {
    if n < 10 then [DigitOf(n)] else Decimal(n / 10) + [DigitOf(n % 10)]
  }

  // `parseInt(text, 10)`
  function Parse(text: string): nat
    requires AllDigits(text)
  {
    if text == "" then 0 else Parse(text[..|text| - 1]) * 10 + ValueOf(text[|text| - 1])
  }

  function Zeros(count: nat): (text: string)
    ensures |text| == count && AllDigits(text)
  {
    seq(count, _ => '0')
  }

  // `String(order).padStart(width, '0')`
  function FormatPatchOrder(order: nat, width: nat): (text: string)
    ensures |text| > 0 && AllDigits(text)
  {
    var text := Decimal(order);
    if |text| < width then Zeros(width - |text|) + text else text
  }

  // How many digits a filename starts with.
  function DigitCount(filename: string): (count: nat)
    ensures count <= |filename|
    ensures AllDigits(filename[..count])
    ensures count < |filename| ==> !IsDigit(filename[count])
  {
    if filename == "" || !IsDigit(filename[0]) then 0
    else
      var rest := DigitCount(filename[1..]);
      assert filename[..1 + rest] == [filename[0]] + filename[1..][..rest];
      1 + rest
  }

  // The prefix match `^(\d+)-`.
  predicate HasPrefix(filename: string) {
    var count := DigitCount(filename);
    0 < count < |filename| && filename[count] == '-'
  }

  // The order a filename carries; the source throws when it carries none.
  function RequirePatchOrder(filename: string): Option<nat> {
    if HasPrefix(filename) then Some(Parse(filename[..DigitCount(filename)])) else None
  }

  // `filename.replace(/^\d+-/, '')`
  function Rest(filename: string): string {
    if HasPrefix(filename) then filename[DigitCount(filename) + 1..] else filename
  }

  function Named(order: nat, width: nat, rest: string): string {
    FormatPatchOrder(order, width) + "-" + rest
  }

  lemma {:induction false} ParseDecimal(n: nat)
    ensures Parse(Decimal(n)) == n
  {
    if n < 10 {
      assert Decimal(n)[..0] == "";
    } else {
      ParseDecimal(n / 10);
      assert Decimal(n)[..|Decimal(n)| - 1] == Decimal(n / 10);
    }
  }

  lemma {:induction false} ParsePadded(zeros: nat, text: string)
    requires AllDigits(text)
    ensures Parse(Zeros(zeros) + text) == Parse(text)
    decreases |text|, zeros
  {
    var padded := Zeros(zeros) + text;
    if text != "" {
      ParsePadded(zeros, text[..|text| - 1]);
      assert padded[..|padded| - 1] == Zeros(zeros) + text[..|text| - 1];
    } else if zeros > 0 {
      ParsePadded(zeros - 1, text);
      assert padded[..|padded| - 1] == Zeros(zeros - 1) + text;
    }
  }

  lemma {:induction false} DigitCountOf(digits: string, rest: string)
    requires AllDigits(digits) && rest != "" && !IsDigit(rest[0])
    ensures DigitCount(digits + rest) == |digits|
  {
    if digits != "" {
      DigitCountOf(digits[1..], rest);
      assert (digits + rest)[1..] == digits[1..] + rest;
    }
  }

  // Whatever the padding and the rest of the name, a formatted name gives back its order and its
  // rest.
  lemma NamedParsesBack(order: nat, width: nat, rest: string)
    ensures RequirePatchOrder(Named(order, width, rest)) == Some(order)
    ensures Rest(Named(order, width, rest)) == rest
  {
    var digits := FormatPatchOrder(order, width);
    DigitCountOf(digits, "-" + rest);
    assert Named(order, width, rest) == digits + ("-" + rest);
    assert Named(order, width, rest)[..|digits|] == digits;
    ParseDecimal(order);
    if |Decimal(order)| < width {
      ParsePadded(width - |Decimal(order)|, Decimal(order));
    }
  }
}
