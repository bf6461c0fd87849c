/** The file-name rules of the batch loops: which files are processed and
    which reference key a file name selects. */
module FileNames {

  predicate StartsWith(s: string, prefix: string)
  {
    |prefix| <= |s| && s[..|prefix|] == prefix
  }

  predicate EndsWith(s: string, suffix: string)
  {
    |suffix| <= |s| && s[|s| - |suffix|..] == suffix
  }

  /** The route and single-folder scripts process a `.jpg` unless it is a
      slate frame. */
  predicate Eligible(name: string)
  {
    EndsWith(name, ".jpg") && !(StartsWith(name, "EndSlate") || StartsWith(name, "OpenSlate"))
  }

  /** `name.split('-')[0]`: the text before the first `-`, or the whole name
      when there is none. */
  function LocationKey(name: string): (k: string)
    ensures |k| <= |name| && k == name[..|k|]
    ensures forall i :: 0 <= i < |k| ==> k[i] != '-'
    ensures |k| < |name| ==> name[|k|] == '-'
  {
    if |name| == 0 || name[0] == '-' then "" else [name[0]] + LocationKey(name[1..])
  }

  /** The key ignores everything from the first `-` on. */
  lemma {:induction false} LocationKeySplit(key: string, rest: string)
    requires forall i :: 0 <= i < |key| ==> key[i] != '-'
    ensures LocationKey(key + "-" + rest) == key
    ensures LocationKey(key) == key
  {
    if |key| > 0 {
      assert (key + "-" + rest)[1..] == key[1..] + "-" + rest;
      assert key == [key[0]] + key[1..];
      LocationKeySplit(key[1..], rest);
    }
  }

  predicate IsLower(c: char)
  {
    'a' <= c <= 'z'
  }

  /** `str.upper()` restricted to ASCII letters. */
  function UpperChar(c: char): (u: char)
    ensures !IsLower(u)
    ensures !IsLower(c) ==> u == c
    ensures IsLower(c) ==> 'A' <= u <= 'Z' && u as int - 'A' as int == c as int - 'a' as int
  {
    if IsLower(c) then (c as int - 'a' as int + 'A' as int) as char else c
  }

  function Upper(s: string): (u: string)
    ensures |u| == |s|
    ensures forall i :: 0 <= i < |s| ==> u[i] == UpperChar(s[i])
  {
    seq(|s|, i requires 0 <= i < |s| => UpperChar(s[i]))
  }

  /** Upper-casing twice is upper-casing once: looking up an already upper-case
      key finds the same row. */
  lemma UpperIdempotent(s: string)
    ensures Upper(Upper(s)) == Upper(s)
  {
  }

  /** The lookup key of the route and single-folder scripts: the text before
      the first `-`, upper-cased. */
  function LookupKey(name: string): (k: string)
    ensures |k| <= |name|
    ensures forall i :: 0 <= i < |k| ==> name[i] != '-' && k[i] == UpperChar(name[i])
    ensures |k| < |name| ==> name[|k|] == '-'
  {
    Upper(LocationKey(name))
  }

  /** Which names the route and single-folder scripts process: the suffix
      and prefix tests are case-sensitive. */
  lemma EligibleExamples()
    ensures Eligible("A12-0001.jpg") && Eligible("a12.jpg") && Eligible("endslate-1.jpg")
    ensures !Eligible("EndSlate-A12.jpg") && !Eligible("OpenSlate.jpg")
    ensures !Eligible("A12-0001.JPG") && !Eligible("A12-0001.jpeg") && !Eligible(".jp")
  {
    assert "A12-0001.jpg"[8..] == ".jpg" && "A12-0001.jpg"[0] != 'E' && "A12-0001.jpg"[0] != 'O';
    assert "a12.jpg"[3..] == ".jpg" && "a12.jpg"[0] != 'E' && "a12.jpg"[0] != 'O';
    assert "endslate-1.jpg"[10..] == ".jpg" && "endslate-1.jpg"[0] != 'E' && "endslate-1.jpg"[0] != 'O';
    assert "EndSlate-A12.jpg"[..8] == "EndSlate";
    assert "OpenSlate.jpg"[..9] == "OpenSlate";
    assert "A12-0001.JPG"[8..][1] == 'J';
    assert "A12-0001.jpeg"[9..][1] == 'p';
  }

  /** The validation script only looks at `.jpg` files starting with `i`. */
  predicate ValidateEligible(name: string)
  {
    EndsWith(name, ".jpg") && StartsWith(name, "i")
  }

  /** `filename[0:3].upper()`, the validation script's lookup key. */
  function ValidateKey(name: string): (k: string)
    ensures |k| == if |name| < 3 then |name| else 3
    ensures forall i :: 0 <= i < |k| ==> k[i] == UpperChar(name[i])
    ensures ValidateEligible(name) ==> |k| == 3 && k[0] == 'I'
  {
    Upper(name[..if |name| < 3 then |name| else 3])
  }

  /** Which names the validation script checks: only a lower-case `i`
      start and the exact `.jpg` suffix qualify. */
  lemma ValidateEligibleExamples()
    ensures ValidateEligible("i05-0001.jpg") && ValidateEligible("i.jpg")
    ensures !ValidateEligible("I05-0001.jpg") && !ValidateEligible("i05-0001.png")
    ensures ValidateKey("i05-0001.jpg") == "I05"
  {
    assert "i05-0001.jpg"[8..] == ".jpg" && "i05-0001.jpg"[..1] == "i";
    assert "i.jpg"[1..] == ".jpg" && "i.jpg"[..1] == "i";
    assert "I05-0001.jpg"[..1][0] == 'I';
    assert "i05-0001.png"[8..][1] == 'p';
    var k := ValidateKey("i05-0001.jpg");
    assert k[0] == UpperChar('i') == 'I';
    assert k[1] == '0' && k[2] == '5';
  }
}
