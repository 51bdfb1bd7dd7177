/**
 The call-limit header parser: turns the value of the response header that
 reports API usage, `"<used>/<total>"`, into a usage report. It is total:
 an absent header counts as `"0/0"` and anything malformed reads as 0.
 */
module CallLimit {
  import opened Wrappers
  import opened RubyString

  /** The value assumed when a response carries no call-limit header. */
  const MissingHeader: string := "0/0"

  /** Calls used and the bucket size, as the server reports them. */
  datatype Usage = Usage(used: int, total: int)

  /** `parts[i].to_i`, where reading past the end gives `nil` and `nil.to_i` is 0. */
  function FieldToI(parts: seq<string>, i: nat): (v: int) {
    if i < |parts| then ToI(parts[i]) else 0
  }

  /** Dropping trailing empty fields never changes what a field reads as. */
  lemma FieldToIDropTrailing(f: seq<string>, i: nat)
    ensures FieldToI(DropTrailingEmpty(f), i) == FieldToI(f, i)
  {
  }

  /**
   `used, total = (header || "0/0").split('/')`, each side read with `to_i`:
   the first two fields of the header, a missing second field reading as 0.
   */
  function ParseCreditLimit(header: Option<string>): (u: Usage)
    ensures var f := Fields(header.GetOr(MissingHeader), '/');
      u == Usage(FieldToI(f, 0), FieldToI(f, 1))
  {
    var f := Fields(header.GetOr(MissingHeader), '/');
    FieldToIDropTrailing(f, 0);
    FieldToIDropTrailing(f, 1);
    var parts := Split(header.GetOr(MissingHeader), '/');
    Usage(FieldToI(parts, 0), FieldToI(parts, 1))
  }

  /**
   A header of two slash-free sides separated by one slash reads each side
   with `to_i`.
   */
  lemma ParseHeader(h: string, a: string, b: string, used: int, total: int)
    requires '/' !in a && '/' !in b
    requires h == a + "/" + b
    requires ToI(a) == used && ToI(b) == total
    ensures ParseCreditLimit(Some(h)) == Usage(used, total)
  {
    FieldsAtSeparator(a, b, '/');
    FieldsAtSeparator(b, [], '/');
    assert h == a + ['/'] + b;
  }

  /** Anything after a second slash is ignored. */
  lemma ParseIgnoresExtraFields(h: string, a: string, b: string, rest: string, used: int, total: int)
    requires '/' !in a && '/' !in b
    requires h == a + "/" + b + "/" + rest
    requires ToI(a) == used && ToI(b) == total
    ensures ParseCreditLimit(Some(h)) == Usage(used, total)
  {
    var tail := b + ['/'] + rest;
    FieldsAtSeparator(b, rest, '/');
    FieldsAtSeparator(a, tail, '/');
    assert h == a + ['/'] + tail;
    var f := Fields(h, '/');
    assert f == [a] + Fields(tail, '/');
    assert f[1] == b;
  }

  /** A header without a slash is the used side only; the total reads as 0. */
  lemma ParseWithoutSlash(h: string, used: int)
    requires '/' !in h
    requires ToI(h) == used
    ensures ParseCreditLimit(Some(h)) == Usage(used, 0)
  {
    FieldsAtSeparator(h, [], '/');
  }

  /** Writing any usage report as `"used/total"` and parsing it gives it back. */
  lemma ParseRoundTrip(used: int, total: int)
    ensures ParseCreditLimit(Some(Show(used) + "/" + Show(total))) == Usage(used, total)
  {
    ParseHeader(Show(used) + "/" + Show(total), Show(used), Show(total), used, total);
  }

  /** A response without the header reports nothing used of nothing. */
  lemma ParseMissingHeader()
    ensures ParseCreditLimit(None) == Usage(0, 0)
  {
  }

  /** A well-formed header reads as the two numbers it holds. */
  lemma ParseWellFormedExample()
    ensures ParseCreditLimit(Some("32/40")) == Usage(32, 40)
  {
    ToIOfDigits("32");
    ToIOfDigits("40");
    ParseHeader("32/40", "32", "40", 32, 40);
  }

  /** A used side that is not a number reads as 0. */
  lemma ParseNonNumericUsedExample()
    ensures ParseCreditLimit(Some("bad/40")) == Usage(0, 40)
  {
    ToINonNumeric("bad");
    ToIOfDigits("40");
    ParseHeader("bad/40", "bad", "40", 0, 40);
  }

  /** A total side that is not a number reads as 0. */
  lemma ParseNonNumericTotalExample()
    ensures ParseCreditLimit(Some("5/bad")) == Usage(5, 0)
  {
  }

  /** A header without a slash has no total, which reads as 0. */
  lemma ParseMissingTotalExample()
    ensures ParseCreditLimit(Some("12")) == Usage(12, 0)
  {
    ToIOfDigits("12");
    ParseWithoutSlash("12", 12);
  }

  /** Fields after a second slash are ignored. */
  lemma ParseExtraFieldExample()
    ensures ParseCreditLimit(Some("1/2/3")) == Usage(1, 2)
  {
    ToIOfDigits("1");
    ToIOfDigits("2");
    ParseIgnoresExtraFields("1/2/3", "1", "2", "3", 1, 2);
  }

  /** The report of the response in the end-to-end scenario. */
  lemma ParseScenarioExample()
    ensures ParseCreditLimit(Some("39/40")) == Usage(39, 40)
  {
    ToIOfDigits("39");
    ToIOfDigits("40");
    ParseHeader("39/40", "39", "40", 39, 40);
  }

  /** A side may carry Ruby's base-10 radix prefix `0d`. */
  lemma ParseRadixPrefixExample()
    ensures ParseCreditLimit(Some("0d5/40")) == Usage(5, 40)
  {
    ToIOfRadixPrefix('d', "5", []);
    assert ['0', 'd'] + "5" + [] == "0d5";
    ToIOfDigits("40");
    ParseHeader("0d5/40", "0d5", "40", 5, 40);
  }
}
