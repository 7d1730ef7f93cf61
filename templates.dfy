/** Template selection and drag-order decoding (crack.py, `detect_image`). */
module TemplateSelect {
  import opened Errors
  import opened Images
  import opened PixelCompare
  import opened TemplateMatch

  /** One file of the template folder: its file name and its image. */
  datatype Template = Template(name: string, image: Image<Rgba>)

  /** The part of a file name before its first '.', or the whole name when it
      has none: the first piece of splitting it on dots. */
  function Stem(name: string): (stem: string)
    ensures stem <= name
    ensures '.' !in stem
    ensures |stem| < |name| ==> name[|stem|] == '.'
  {
    if name == [] || name[0] == '.' then [] else [name[0]] + Stem(name[1..])
  }

  predicate IsDigit(c: char) {
    '0' <= c <= '9'
  }

  /** Value of a decimal digit character, as Python's `int` reads it. */
  function DigitValue(c: char): int
    requires IsDigit(c)
  {
    c as int - '0' as int
  }

  /** Every character converted with Python's `int`, in order: one integer
      per character, ValueError at a character that is not a digit. */
  function DecodeDigits(s: string): (r: Result<seq<int>>)
    ensures r.Ok? <==> forall i | 0 <= i < |s| :: IsDigit(s[i])
    ensures r.Err? ==> r.error == ValueError
    ensures r.Ok? ==> |r.value| == |s| && forall i | 0 <= i < |s| :: r.value[i] == DigitValue(s[i])
  {
    if s == [] then Ok([])
    else if !IsDigit(s[0]) then Err(ValueError)
    else match DecodeDigits(s[1..])
      case Err(e) => Err(e)
      case Ok(rest) => Ok([DigitValue(s[0])] + rest)
  }

  /** The drag order a template's file name encodes: the digits of its stem,
      left to right.  Nothing checks that they form a permutation. */
  function DecodeOrder(name: string): Result<seq<int>>
  {
    DecodeDigits(Stem(name))
  }

  /** What `detect_image(image)` returns or raises, the folder listing given
      as `templates`: the order of the first accepted template, None when
      the loop falls off the end. */
  function Detect(image: Image<Rgba>, templates: seq<Template>): Result<Option<seq<int>>>
  {
    if templates == [] then Ok(None)
    else match Verdict(image, templates[0].image)
      case Err(e) => Err(e)
      case Ok(same) =>
        if same then
          match DecodeOrder(templates[0].name)
          case Err(e) => Err(e)
          case Ok(numbers) => Ok(Some(numbers))
        else Detect(image, templates[1..])
  }

  /** `detect_image`: scans the templates in listing order and returns at
      the first one `same_image` accepts. */
  method DetectImage(image: Image<Rgba>, templates: seq<Template>) returns (r: Result<Option<seq<int>>>)
    ensures r == Detect(image, templates)
  {
    var k := 0;
    while k < |templates|
      invariant 0 <= k <= |templates|
      invariant Detect(image, templates) == Detect(image, templates[k..])
    {
      assert templates[k..][1..] == templates[k + 1..];
      var same := SameImage(image, templates[k].image);
      if same.Err? {
        return Err(same.error);
      }
      if same.value {
        var numbers := DecodeOrder(templates[k].name);
        if numbers.Err? {
          return Err(numbers.error);
        }
        return Ok(Some(numbers.value));
      }
      k := k + 1;
    }
    r := Ok(None);
  }

  /** Template i is accepted and every template before it is rejected. */
  ghost predicate FirstAccepted(image: Image<Rgba>, templates: seq<Template>, i: nat)
  {
    i < |templates| && Verdict(image, templates[i].image) == Ok(true) &&
    forall j | 0 <= j < i :: Verdict(image, templates[j].image) == Ok(false)
  }

  /** The result is an order exactly when it is the decoded name of the
      first accepted template. */
  lemma {:induction false} DetectReturnsFirstMatch(image: Image<Rgba>, templates: seq<Template>, numbers: seq<int>)
    ensures Detect(image, templates) == Ok(Some(numbers)) <==>
      exists i: nat :: FirstAccepted(image, templates, i) && DecodeOrder(templates[i].name) == Ok(numbers)
  {
    if templates != [] {
      DetectReturnsFirstMatch(image, templates[1..], numbers);
      var tail := templates[1..];
      if Verdict(image, templates[0].image) == Ok(false) {
        if Detect(image, templates) == Ok(Some(numbers)) {
          var i: nat :| FirstAccepted(image, tail, i) && DecodeOrder(tail[i].name) == Ok(numbers);
          assert FirstAccepted(image, templates, i + 1);
        }
        if exists i: nat :: FirstAccepted(image, templates, i) && DecodeOrder(templates[i].name) == Ok(numbers) {
          var i: nat :| FirstAccepted(image, templates, i) && DecodeOrder(templates[i].name) == Ok(numbers);
          assert i != 0;
          assert FirstAccepted(image, tail, i - 1);
        }
      } else if Verdict(image, templates[0].image) == Ok(true) {
        if Detect(image, templates) == Ok(Some(numbers)) {
          assert FirstAccepted(image, templates, 0);
        }
      } else {
        assert forall i: nat :: !FirstAccepted(image, templates, i);
      }
    }
  }

  /** The loop falls off the end exactly when every template is rejected. */
  lemma {:induction false} DetectNoneIffAllRejected(image: Image<Rgba>, templates: seq<Template>)
    ensures Detect(image, templates) == Ok(None) <==>
      forall j | 0 <= j < |templates| :: Verdict(image, templates[j].image) == Ok(false)
  {
    if templates != [] {
      DetectNoneIffAllRejected(image, templates[1..]);
      assert forall j | 1 <= j < |templates| :: templates[j] == templates[1..][j - 1];
    }
  }

  /** Templates after the first accepted (or failing) one are never examined;
      when every template is rejected the scan continues with what follows. */
  lemma {:induction false} DetectIgnoresLaterTemplates(image: Image<Rgba>, templates: seq<Template>, more: seq<Template>)
    ensures Detect(image, templates) != Ok(None) ==> Detect(image, templates + more) == Detect(image, templates)
    ensures Detect(image, templates) == Ok(None) ==> Detect(image, templates + more) == Detect(image, more)
  {
    if templates != [] {
      assert (templates + more)[0] == templates[0];
      assert (templates + more)[1..] == templates[1..] + more;
      DetectIgnoresLaterTemplates(image, templates[1..], more);
    } else {
      assert templates + more == more;
    }
  }

  /** The file name of a drag order: its digits, then an extension. */
  function OrderName(numbers: seq<int>, extension: string): (name: string)
    requires forall i | 0 <= i < |numbers| :: 0 <= numbers[i] <= 9
    ensures |name| == |numbers| + 1 + |extension|
    ensures name[|numbers|] == '.' && name[|numbers| + 1..] == extension
  {
    seq(|numbers|, i requires 0 <= i < |numbers| => ('0' as int + numbers[i]) as char) + ['.'] + extension
  }

  /** Decoding the name of a drag order gives the order back. */
  lemma NameRoundTrip(numbers: seq<int>, extension: string)
    requires forall i | 0 <= i < |numbers| :: 0 <= numbers[i] <= 9
    ensures DecodeOrder(OrderName(numbers, extension)) == Ok(numbers)
  {
    var name := OrderName(numbers, extension);
    var digits := name[..|numbers|];
    assert name == digits + ['.'] + extension;
    assert forall i | 0 <= i < |digits| :: IsDigit(digits[i]) && DigitValue(digits[i]) == numbers[i];
    StemOfDotted(digits, extension);
    var r := DecodeDigits(digits);
    assert r.Ok? && |r.value| == |numbers|;
    assert r.value == numbers;
  }

  lemma {:induction false} StemOfDotted(stem: string, rest: string)
    requires '.' !in stem
    ensures Stem(stem + ['.'] + rest) == stem
  {
    if stem != [] {
      assert (stem + ['.'] + rest)[1..] == stem[1..] + ['.'] + rest;
      StemOfDotted(stem[1..], rest);
    }
  }

  /** A library holding one template "1234.png" identical to a non-empty
      candidate yields the order [1, 2, 3, 4]; an empty library yields None. */
  lemma IdenticalTemplateScenario(image: Image<Rgba>)
    requires image.width > 0 && image.height > 0
    ensures Detect(image, [Template("1234.png", image)]) == Ok(Some([1, 2, 3, 4]))
    ensures Detect(image, []) == Ok(None)
  {
    SelfAccepted(image);
    NameRoundTrip([1, 2, 3, 4], "png");
    assert OrderName([1, 2, 3, 4], "png") == "1234.png";
  }

  /** A template whose every pixel is at least the threshold away from the
      candidate's is not selected. */
  lemma DistantTemplateNotFound(image: Image<Rgba>, template: Template)
    requires image.width > 0 && image.height > 0
    requires template.image.width >= image.width && template.image.height >= image.height
    requires forall x: nat, y: nat | x < image.width && y < image.height ::
      !PixelEqual(At(image, x, y), At(template.image, x, y))
    ensures Detect(image, [template]) == Ok(None)
  {
    NoMatchRejected(image, template.image, image.width);
  }
}
