/**
 * The path convention shared by the image downloader and the CSV export:
 * a record's image lives at `images/{mal_id}.jpg`, the id printed in decimal
 * as a Python f-string prints an int (a leading '-' for negative ids).
 */
module AssetPath {

  const IMAGE_DIR_PREFIX: string := "images/"
  const IMAGE_SUFFIX: string := ".jpg"

  function DigitChar(d: nat): (c: char)
    requires d < 10
    ensures '0' <= c <= '9'
  {
    "0123456789"[d]
  }

  predicate AllDigits(s: string) {
    forall i :: 0 <= i < |s| ==> '0' <= s[i] <= '9'
  }

  /** The decimal digits of a natural number, most significant first, without leading zeros. */
  function NatToDecimal(n: nat): (s: string)
    ensures |s| > 0 && AllDigits(s)
    decreases n
  {
    if n < 10 then [DigitChar(n)] else NatToDecimal(n / 10) + [DigitChar(n % 10)]
  }

  /** The value of a string of decimal digits. */
  function DecimalValue(s: string): nat
    requires AllDigits(s)
    decreases |s|
  {
    if |s| == 0 then 0 else DecimalValue(s[..|s| - 1]) * 10 + (s[|s| - 1] as int - '0' as int)
  }

  lemma {:induction false} DecimalRoundTrip(n: nat)
    ensures DecimalValue(NatToDecimal(n)) == n
    decreases n
  {
    var s := NatToDecimal(n);
    if n >= 10 {
      DecimalRoundTrip(n / 10);
      assert s[..|s| - 1] == NatToDecimal(n / 10);
    }
  }

  /** `str(n)` for an int. */
  function IntToDecimal(n: int): string {
    if n < 0 then "-" + NatToDecimal(-n) else NatToDecimal(n)
  }

  /** Distinct ids print differently. */
  lemma NatToDecimalInjective(a: nat, b: nat)
    requires NatToDecimal(a) == NatToDecimal(b)
    ensures a == b
  {
    DecimalRoundTrip(a);
    DecimalRoundTrip(b);
  }

  /** A printed id starts with '-' exactly when it is negative. */
  lemma IntToDecimalSign(n: int)
    ensures |IntToDecimal(n)| > 0
    ensures (IntToDecimal(n)[0] == '-') == (n < 0)
    ensures n < 0 ==> IntToDecimal(n)[1..] == NatToDecimal(-n)
  {
    if n < 0 {
      var d := NatToDecimal(-n);
      assert IntToDecimal(n) == "-" + d;
    } else {
      var d := NatToDecimal(n);
      assert IntToDecimal(n) == d;
      assert '0' <= d[0] <= '9';
    }
  }

  lemma IntToDecimalInjective(m: int, n: int)
    requires IntToDecimal(m) == IntToDecimal(n)
    ensures m == n
  {
    IntToDecimalSign(m);
    IntToDecimalSign(n);
    if m < 0 {
      NatToDecimalInjective(-m, -n);
    } else {
      NatToDecimalInjective(m, n);
    }
  }

  /** The image path of a record id, `f"images/{mal_id}.jpg"`. */
  function ImagePath(id: int): string {
    IMAGE_DIR_PREFIX + IntToDecimal(id) + IMAGE_SUFFIX
  }

  /** Every image path lies in the image directory. */
  lemma ImagePathInImageDir(id: int)
    ensures |ImagePath(id)| > |IMAGE_DIR_PREFIX| + |IMAGE_SUFFIX|
    ensures ImagePath(id)[..|IMAGE_DIR_PREFIX|] == IMAGE_DIR_PREFIX
  {
    assert ImagePath(id)[..|IMAGE_DIR_PREFIX|] == IMAGE_DIR_PREFIX;
  }

  /** Distinct records never share an image file. */
  lemma ImagePathInjective(m: int, n: int)
    requires ImagePath(m) == ImagePath(n)
    ensures m == n
  {
    var dm, dn := IntToDecimal(m), IntToDecimal(n);
    assert ImagePath(m)[7..|ImagePath(m)| - 4] == dm;
    assert ImagePath(n)[7..|ImagePath(n)| - 4] == dn;
    IntToDecimalInjective(m, n);
  }

  lemma ImagePathExample()
    ensures ImagePath(5114) == "images/5114.jpg"
    ensures ImagePath(-3) == "images/-3.jpg"
  {
  }
}
