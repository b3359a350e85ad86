/**
 * The cases util_pkg's own tests check, derived from the model: parsed
 * versions, comparisons against a mocked installed version, and the specs
 * that are refused.
 */
module UtilPkgExamples {
  import opened Wrappers
  import opened PyCompare
  import opened UtilPkg

  /** A package lookup that finds every package at version v. */
  function Installed(v: string): string -> Option<string> {
    _ => Some(v)
  }

  /** A package lookup that finds nothing. */
  function NothingInstalled(): string -> Option<string> {
    _ => None
  }

  /** A run of digits parses to one number, its decimal value. */
  lemma ParseNumber(a: string)
    requires IsDigits(a)
    ensures ParseVersion(a) == [Num(DigitsValue(a))]
  {
    assert NoSeparator(a) by {
      forall i | 0 <= i < |a| ensures !IsSeparator(a[i]) {
        assert IsDigit(a[i]);
      }
    }
    ParseVersionPiece(a);
  }

  /** Three runs of digits joined by dots parse to their three values. */
  lemma ParseThreeNumbers(s: string, a: string, b: string, c: string, x: nat, y: nat, z: nat)
    requires s == a + "." + b + "." + c
    requires IsDigits(a) && IsDigits(b) && IsDigits(c)
    requires DigitsValue(a) == x && DigitsValue(b) == y && DigitsValue(c) == z
    ensures ParseVersion(s) == [Num(x), Num(y), Num(z)]
  {
    ParseNumber(a);
    ParseNumber(b);
    ParseNumber(c);
    var ab := a + ['.'] + b;
    ParseVersionAppend(a, '.', b);
    assert s == ab + ['.'] + c;
    ParseVersionAppend(ab, '.', c);
  }

  /** A separator-free piece that does not start with a digit parses to one string component. */
  lemma ParseWord(w: string)
    requires NoSeparator(w) && w != [] && !IsDigit(w[0])
    ensures ParseVersion(w) == [Str(w)]
  {
    ParseVersionPiece(w);
  }

  /** "1.0.0" parses to three numbers. */
  lemma ParseOneZeroZero()
    ensures ParseVersion("1.0.0") == [Num(1), Num(0), Num(0)]
  {
    ParseThreeNumbers("1.0.0", "1", "0", "0", 1, 0, 0);
  }

  /** "3.5.0" parses to three numbers. */
  lemma ParseThreeFiveZero()
    ensures ParseVersion("3.5.0") == [Num(3), Num(5), Num(0)]
  {
    ParseThreeNumbers("3.5.0", "3", "5", "0", 3, 5, 0);
  }

  /** "1.20.0" parses to three numbers. */
  lemma ParseOneTwentyZero()
    ensures ParseVersion("1.20.0") == [Num(1), Num(20), Num(0)]
  {
    ParseThreeNumbers("1.20.0", "1", "20", "0", 1, 20, 0);
  }

  /** "1.0.1" parses to three numbers. */
  lemma ParseOneZeroOne()
    ensures ParseVersion("1.0.1") == [Num(1), Num(0), Num(1)]
  {
    ParseThreeNumbers("1.0.1", "1", "0", "1", 1, 0, 1);
  }

  /** "0.9.0" parses to three numbers. */
  lemma ParseZeroNineZero()
    ensures ParseVersion("0.9.0") == [Num(0), Num(9), Num(0)]
  {
    ParseThreeNumbers("0.9.0", "0", "9", "0", 0, 9, 0);
  }

  /** "2.0.0" parses to three numbers. */
  lemma ParseTwoZeroZero()
    ensures ParseVersion("2.0.0") == [Num(2), Num(0), Num(0)]
  {
    ParseThreeNumbers("2.0.0", "2", "0", "0", 2, 0, 0);
  }

  /** A version followed by a separator and a word parses to the version's components, then the word. */
  lemma ParseWithSuffix(s: string, base: string, sep: char, word: string, vb: seq<Comp>)
    requires s == base + [sep] + word && IsSeparator(sep)
    requires ParseVersion(base) == vb
    requires NoSeparator(word) && word != [] && !IsDigit(word[0])
    ensures ParseVersion(s) == vb + [Str(word)]
  {
    ParseWord(word);
    ParseVersionAppend(base, sep, word);
  }

  /** The parse of "3.5.0.dev869102767". */
  lemma ParseDevRelease(s: string)
    requires s == "3.5.0.dev869102767"
    ensures ParseVersion(s) == [Num(3), Num(5), Num(0), Str("dev869102767")]
  {
    var base, word := "3.5.0", "dev869102767";
    assert s == base + ['.'] + word;
    assert NoSeparator(word);
    ParseThreeFiveZero();
    ParseWithSuffix(s, base, '.', word, [Num(3), Num(5), Num(0)]);
  }

  /** The parse of "3.5.0-foobar". */
  lemma ParseFoobarRelease(s: string)
    requires s == "3.5.0-foobar"
    ensures ParseVersion(s) == [Num(3), Num(5), Num(0), Str("foobar")]
  {
    var base, word := "3.5.0", "foobar";
    assert s == base + ['-'] + word;
    assert NoSeparator(word);
    ParseThreeFiveZero();
    ParseWithSuffix(s, base, '-', word, [Num(3), Num(5), Num(0)]);
  }

  /** The parse of "1.0.0-alpha". */
  lemma ParseAlphaRelease(s: string)
    requires s == "1.0.0-alpha"
    ensures ParseVersion(s) == [Num(1), Num(0), Num(0), Str("alpha")]
  {
    var base, word := "1.0.0", "alpha";
    assert s == base + ['-'] + word;
    assert NoSeparator(word);
    ParseOneZeroZero();
    ParseWithSuffix(s, base, '-', word, [Num(1), Num(0), Num(0)]);
  }

  /** A version followed by a separator and a run of digits parses to the version's components, then the number. */
  lemma ParseWithNumber(s: string, base: string, sep: char, digits: string, vb: seq<Comp>, n: nat)
    requires s == base + [sep] + digits && IsSeparator(sep)
    requires ParseVersion(base) == vb
    requires IsDigits(digits) && DigitsValue(digits) == n
    ensures ParseVersion(s) == vb + [Num(n)]
  {
    ParseNumber(digits);
    ParseVersionAppend(base, sep, digits);
  }

  /** The parse of "2.0.0-beta". */
  lemma ParseBetaPrefix(s: string)
    requires s == "2.0.0-beta"
    ensures ParseVersion(s) == [Num(2), Num(0), Num(0), Str("beta")]
  {
    var base, word := "2.0.0", "beta";
    assert s == base + ['-'] + word;
    assert NoSeparator(word);
    ParseTwoZeroZero();
    ParseWithSuffix(s, base, '-', word, [Num(2), Num(0), Num(0)]);
  }

  /** The parse of "2.0.0-beta.1": a word, then a number after it. */
  lemma ParseBetaRelease(s: string)
    requires s == "2.0.0-beta.1"
    ensures ParseVersion(s) == [Num(2), Num(0), Num(0), Str("beta"), Num(1)]
  {
    var pre, last := "2.0.0-beta", "1";
    assert s == pre + ['.'] + last;
    ParseBetaPrefix(pre);
    ParseWithNumber(s, pre, '.', last, [Num(2), Num(0), Num(0), Str("beta")], 1);
  }

  /** A spec "pkg" op version, checked against an installed version, compares the two parsed versions. */
  lemma CheckCase(op: Op, version: string, installed: string, vi: seq<Comp>, vr: seq<Comp>, expected: bool)
    requires version != [] && '\n' !in version && version[0] != '='
    requires ParseVersion(installed) == vi && ParseVersion(version) == vr
    requires VersionOp(op, vi, vr) == expected
    ensures CheckVersion("pkg" + Token(op) + version, Installed(installed)) == Success(expected)
  {
    ParseSpecComplete("pkg", op, version);
  }

  /** Two pre-release words at the same release compare as strings. */
  lemma FoobarAfterDev()
    ensures VersionOp(Gt, [Num(3), Num(5), Num(0), Str("foobar")], [Num(3), Num(5), Num(0), Str("dev869102767")])
  {
    FirstDifferenceDecides(Gt, [Num(3), Num(5), Num(0)], Str("foobar"), Str("dev869102767"), [], []);
    assert [Num(3), Num(5), Num(0)] + [Str("foobar")] + [] == [Num(3), Num(5), Num(0), Str("foobar")];
    assert [Num(3), Num(5), Num(0)] + [Str("dev869102767")] + [] == [Num(3), Num(5), Num(0), Str("dev869102767")];
  }

  /** "pkg>=1.0.0" with 1.0.0 installed. */
  lemma CheckAtLeastSame(spec: string, version: string, installed: string)
    requires version == "1.0.0" && spec == "pkg>=" + version && installed == "1.0.0"
    ensures CheckVersion(spec, Installed(installed)) == Success(true)
  {
    ParseOneZeroZero();
    assert spec == "pkg" + Token(Ge) + version;
    CheckCase(Ge, version, installed, [Num(1), Num(0), Num(0)], [Num(1), Num(0), Num(0)], true);
  }

  /** "pkg>=1.0.0" with 1.0.1 installed. */
  lemma CheckAtLeastPatch(spec: string, version: string, installed: string)
    requires version == "1.0.0" && spec == "pkg>=" + version && installed == "1.0.1"
    ensures CheckVersion(spec, Installed(installed)) == Success(true)
  {
    ParseOneZeroZero();
    ParseOneZeroOne();
    assert spec == "pkg" + Token(Ge) + version;
    CheckCase(Ge, version, installed, [Num(1), Num(0), Num(1)], [Num(1), Num(0), Num(0)], true);
  }

  /** "pkg>=1.0.0" with 2.0.0 installed. */
  lemma CheckAtLeastMajor(spec: string, version: string, installed: string)
    requires version == "1.0.0" && spec == "pkg>=" + version && installed == "2.0.0"
    ensures CheckVersion(spec, Installed(installed)) == Success(true)
  {
    ParseOneZeroZero();
    ParseTwoZeroZero();
    assert spec == "pkg" + Token(Ge) + version;
    CheckCase(Ge, version, installed, [Num(2), Num(0), Num(0)], [Num(1), Num(0), Num(0)], true);
  }

  /** "pkg>=1.0.0" with 0.9.0 installed. */
  lemma CheckAtLeastOlder(spec: string, version: string, installed: string)
    requires version == "1.0.0" && spec == "pkg>=" + version && installed == "0.9.0"
    ensures CheckVersion(spec, Installed(installed)) == Success(false)
  {
    ParseOneZeroZero();
    ParseZeroNineZero();
    assert spec == "pkg" + Token(Ge) + version;
    CheckCase(Ge, version, installed, [Num(0), Num(9), Num(0)], [Num(1), Num(0), Num(0)], false);
  }

  /** "pkg<=1.0.0" with 1.0.0 installed. */
  lemma CheckAtMostSame(spec: string, version: string, installed: string)
    requires version == "1.0.0" && spec == "pkg<=" + version && installed == "1.0.0"
    ensures CheckVersion(spec, Installed(installed)) == Success(true)
  {
    ParseOneZeroZero();
    assert spec == "pkg" + Token(Le) + version;
    CheckCase(Le, version, installed, [Num(1), Num(0), Num(0)], [Num(1), Num(0), Num(0)], true);
  }

  /** "pkg<=1.0.0" with 0.9.0 installed. */
  lemma CheckAtMostOlder(spec: string, version: string, installed: string)
    requires version == "1.0.0" && spec == "pkg<=" + version && installed == "0.9.0"
    ensures CheckVersion(spec, Installed(installed)) == Success(true)
  {
    ParseOneZeroZero();
    ParseZeroNineZero();
    assert spec == "pkg" + Token(Le) + version;
    CheckCase(Le, version, installed, [Num(0), Num(9), Num(0)], [Num(1), Num(0), Num(0)], true);
  }

  /** "pkg<=1.0.0" with 1.0.1 installed. */
  lemma CheckAtMostPatch(spec: string, version: string, installed: string)
    requires version == "1.0.0" && spec == "pkg<=" + version && installed == "1.0.1"
    ensures CheckVersion(spec, Installed(installed)) == Success(false)
  {
    ParseOneZeroZero();
    ParseOneZeroOne();
    assert spec == "pkg" + Token(Le) + version;
    CheckCase(Le, version, installed, [Num(1), Num(0), Num(1)], [Num(1), Num(0), Num(0)], false);
  }

  /** "pkg>1.0.0" with 1.0.1 installed. */
  lemma CheckAbovePatch(spec: string, version: string, installed: string)
    requires version == "1.0.0" && spec == "pkg>" + version && installed == "1.0.1"
    ensures CheckVersion(spec, Installed(installed)) == Success(true)
  {
    ParseOneZeroZero();
    ParseOneZeroOne();
    assert spec == "pkg" + Token(Gt) + version;
    CheckCase(Gt, version, installed, [Num(1), Num(0), Num(1)], [Num(1), Num(0), Num(0)], true);
  }

  /** "pkg>1.0.0" with 1.0.0 installed. */
  lemma CheckAboveSame(spec: string, version: string, installed: string)
    requires version == "1.0.0" && spec == "pkg>" + version && installed == "1.0.0"
    ensures CheckVersion(spec, Installed(installed)) == Success(false)
  {
    ParseOneZeroZero();
    assert spec == "pkg" + Token(Gt) + version;
    CheckCase(Gt, version, installed, [Num(1), Num(0), Num(0)], [Num(1), Num(0), Num(0)], false);
  }

  /** "pkg<1.0.0" with 0.9.0 installed. */
  lemma CheckBelowOlder(spec: string, version: string, installed: string)
    requires version == "1.0.0" && spec == "pkg<" + version && installed == "0.9.0"
    ensures CheckVersion(spec, Installed(installed)) == Success(true)
  {
    ParseOneZeroZero();
    ParseZeroNineZero();
    assert spec == "pkg" + Token(Lt) + version;
    CheckCase(Lt, version, installed, [Num(0), Num(9), Num(0)], [Num(1), Num(0), Num(0)], true);
  }

  /** "pkg<1.0.0" with 1.0.0 installed. */
  lemma CheckBelowSame(spec: string, version: string, installed: string)
    requires version == "1.0.0" && spec == "pkg<" + version && installed == "1.0.0"
    ensures CheckVersion(spec, Installed(installed)) == Success(false)
  {
    ParseOneZeroZero();
    assert spec == "pkg" + Token(Lt) + version;
    CheckCase(Lt, version, installed, [Num(1), Num(0), Num(0)], [Num(1), Num(0), Num(0)], false);
  }

  /** "pkg==1.0.0" with 1.0.0 installed. */
  lemma CheckEqualSame(spec: string, version: string, installed: string)
    requires version == "1.0.0" && spec == "pkg==" + version && installed == "1.0.0"
    ensures CheckVersion(spec, Installed(installed)) == Success(true)
  {
    ParseOneZeroZero();
    assert spec == "pkg" + Token(Eq) + version;
    CheckCase(Eq, version, installed, [Num(1), Num(0), Num(0)], [Num(1), Num(0), Num(0)], true);
  }

  /** "pkg==1.0.0" with 1.0.1 installed. */
  lemma CheckEqualPatch(spec: string, version: string, installed: string)
    requires version == "1.0.0" && spec == "pkg==" + version && installed == "1.0.1"
    ensures CheckVersion(spec, Installed(installed)) == Success(false)
  {
    ParseOneZeroZero();
    ParseOneZeroOne();
    assert spec == "pkg" + Token(Eq) + version;
    CheckCase(Eq, version, installed, [Num(1), Num(0), Num(1)], [Num(1), Num(0), Num(0)], false);
  }

  /** "pkg!=1.0.0" with 1.0.1 installed. */
  lemma CheckNotEqualPatch(spec: string, version: string, installed: string)
    requires version == "1.0.0" && spec == "pkg!=" + version && installed == "1.0.1"
    ensures CheckVersion(spec, Installed(installed)) == Success(true)
  {
    ParseOneZeroZero();
    ParseOneZeroOne();
    assert spec == "pkg" + Token(Ne) + version;
    CheckCase(Ne, version, installed, [Num(1), Num(0), Num(1)], [Num(1), Num(0), Num(0)], true);
  }

  /** "pkg!=1.0.0" with 1.0.0 installed. */
  lemma CheckNotEqualSame(spec: string, version: string, installed: string)
    requires version == "1.0.0" && spec == "pkg!=" + version && installed == "1.0.0"
    ensures CheckVersion(spec, Installed(installed)) == Success(false)
  {
    ParseOneZeroZero();
    assert spec == "pkg" + Token(Ne) + version;
    CheckCase(Ne, version, installed, [Num(1), Num(0), Num(0)], [Num(1), Num(0), Num(0)], false);
  }

  /** "pkg>=3.5.0" with 3.5.0.dev869102767 installed. */
  lemma CheckAtLeastDev(spec: string, version: string, installed: string)
    requires version == "3.5.0" && spec == "pkg>=" + version && installed == "3.5.0.dev869102767"
    ensures CheckVersion(spec, Installed(installed)) == Success(true)
  {
    ParseThreeFiveZero();
    ParseDevRelease(installed);
    assert spec == "pkg" + Token(Ge) + version;
    CheckCase(Ge, version, installed, [Num(3), Num(5), Num(0), Str("dev869102767")], [Num(3), Num(5), Num(0)], true);
  }

  /** "pkg>=3.5.0" with 3.5.0-foobar installed. */
  lemma CheckAtLeastFoobar(spec: string, version: string, installed: string)
    requires version == "3.5.0" && spec == "pkg>=" + version && installed == "3.5.0-foobar"
    ensures CheckVersion(spec, Installed(installed)) == Success(true)
  {
    ParseThreeFiveZero();
    ParseFoobarRelease(installed);
    assert spec == "pkg" + Token(Ge) + version;
    CheckCase(Ge, version, installed, [Num(3), Num(5), Num(0), Str("foobar")], [Num(3), Num(5), Num(0)], true);
  }

  /** "pkg>3.5.0" with 3.5.0.dev869102767 installed. */
  lemma CheckAboveDev(spec: string, version: string, installed: string)
    requires version == "3.5.0" && spec == "pkg>" + version && installed == "3.5.0.dev869102767"
    ensures CheckVersion(spec, Installed(installed)) == Success(true)
  {
    ParseThreeFiveZero();
    ParseDevRelease(installed);
    assert spec == "pkg" + Token(Gt) + version;
    CheckCase(Gt, version, installed, [Num(3), Num(5), Num(0), Str("dev869102767")], [Num(3), Num(5), Num(0)], true);
  }

  /** "pkg>=3.5.0-foobar" with 3.5.0-foobar installed. */
  lemma CheckAtLeastSameFoobar(spec: string, version: string, installed: string)
    requires version == "3.5.0-foobar" && spec == "pkg>=" + version && installed == "3.5.0-foobar"
    ensures CheckVersion(spec, Installed(installed)) == Success(true)
  {
    ParseFoobarRelease(version);
    ParseFoobarRelease(installed);
    assert spec == "pkg" + Token(Ge) + version;
    CheckCase(Ge, version, installed, [Num(3), Num(5), Num(0), Str("foobar")], [Num(3), Num(5), Num(0), Str("foobar")], true);
  }

  /** "pkg>3.5.0.dev869102767" with 3.5.0-foobar installed. */
  lemma CheckFoobarAboveDev(spec: string, version: string, installed: string)
    requires version == "3.5.0.dev869102767" && spec == "pkg>" + version && installed == "3.5.0-foobar"
    ensures CheckVersion(spec, Installed(installed)) == Success(true)
  {
    ParseDevRelease(version);
    ParseFoobarRelease(installed);
    FoobarAfterDev();
    assert spec == "pkg" + Token(Gt) + version;
    CheckCase(Gt, version, installed, [Num(3), Num(5), Num(0), Str("foobar")], [Num(3), Num(5), Num(0), Str("dev869102767")], true);
  }

  /** Specs without an operator, without a name, or empty are refused. */
  lemma InvalidSpecs()
    ensures ParseSpec("numpy").None?
    ensures ParseSpec(">=1.0.0").None?
    ensures ParseSpec("").None?
  {
    assert NameLength("numpy") == 5;
    assert "numpy"[5..] == "";
    assert NameLength(">=1.0.0") == 0;
  }

  /** "numpy" followed by "~=1.0.0": no operator follows the name. */
  lemma UnknownOperatorParsed(spec: string)
    requires spec == "numpy" + "~=1.0.0"
    ensures ParseSpec(spec).None?
  {
    ParseSpecRefuses("numpy", "~=1.0.0");
  }

  /** An operator outside the six is refused. */
  lemma UnknownOperator()
    ensures ParseSpec("numpy~=1.0.0").None?
  {
    UnknownOperatorParsed("numpy~=1.0.0");
  }

  /** A package that is not installed is reported by name. */
  lemma MissingPackage()
    ensures CheckVersion("nonexistent>=1.0.0", NothingInstalled()) == Failure(PackageNotFoundError("nonexistent"))
  {
    assert "nonexistent" + Token(Ge) + "1.0.0" == "nonexistent>=1.0.0";
    ParseSpecComplete("nonexistent", Ge, "1.0.0");
  }
}
