/**
 * The file-name sanitizer of Agema.Common.TempFileHelper.
 *
 * `MakeValidFileName` scans its input once, left to right, and copies every
 * character that the platform allows in a file name; a forbidden character is
 * replaced by a look-alike (when `fancy` is on and it is `"`, `'` or `/`), by
 * the caller's replacement character, or dropped. An empty outcome becomes
 * `"_"`, and an input that needed no change is returned as it was.
 *
 * The platform's forbidden characters (Path.GetInvalidFileNameChars()) are a
 * parameter, `invalids`, so every property below holds for every platform.
 */
module TempFileHelper {
  import opened Wrappers

  /** U+201D RIGHT DOUBLE QUOTATION MARK, the look-alike for `"`. */
  const RightDoubleQuote: char := '\U{201D}'
  /** U+2019 RIGHT SINGLE QUOTATION MARK, the look-alike for `'`. */
  const RightSingleQuote: char := '\U{2019}'
  /** U+2044 FRACTION SLASH, the look-alike for `/`. */
  const FractionSlash: char := '\U{2044}'
  /** The NUL character, which the sanitizer reads as "append nothing". */
  const Nul: char := '\0'
  /** What an input that would come out empty becomes. */
  const Placeholder: string := "_"

  /** One of the three characters that `fancy` replaces by a look-alike. */
  predicate IsFancy(c: char)
  {
    c == '"' || c == '\'' || c == '/'
  }

  /** The look-alike of a character for which `IsFancy` holds. */
  function LookAlike(c: char): (r: char)
    requires IsFancy(c)
    ensures r != Nul && r != c && !IsFancy(r)
  {
    if c == '"' then RightDoubleQuote
    else if c == '\'' then RightSingleQuote
    else FractionSlash
  }

  /** The character chosen for a forbidden character `c`: its look-alike when
    * `fancy` applies, otherwise the caller's replacement, with a missing
    * replacement read as NUL. */
  function Substitute(c: char, replacement: Option<char>, fancy: bool): (r: char)
  {
    if fancy && IsFancy(c) then LookAlike(c) else replacement.GetOr(Nul)
  }

  /** What one input character contributes to the output. */
  function CharImage(c: char, replacement: Option<char>, fancy: bool, invalids: seq<char>): (r: string)
    ensures |r| <= 1
  {
    if c !in invalids then [c]
    else
      var repl := Substitute(c, replacement, fancy);
      if repl != Nul then [repl] else []
  }

  /** No character of `text` is forbidden. */
  predicate AllValid(text: string, invalids: seq<char>)
  {
    forall i :: 0 <= i < |text| ==> text[i] !in invalids
  }

  /** The replacement character, when present, is a real character that
    * survives into the output (NUL deletes instead). */
  predicate Replaces(replacement: Option<char>)
  {
    replacement.Some? && replacement.value != Nul
  }

  /** The buffer the scan accumulates: the images of the characters of
    * `text`, concatenated in order. */
  function Filtered(text: string, replacement: Option<char>, fancy: bool, invalids: seq<char>): (r: string)
    ensures |r| <= |text|
    ensures Replaces(replacement) ==> |r| == |text|
  {
    if text == [] then []
    else
      Filtered(text[..|text| - 1], replacement, fancy, invalids)
        + CharImage(text[|text| - 1], replacement, fancy, invalids)
  }

  /** The value `MakeValidFileName` returns. */
  function Sanitized(text: string, replacement: Option<char>, fancy: bool, invalids: seq<char>): (r: string)
    ensures |r| >= 1
    ensures text == [] ==> r == Placeholder
    ensures text != [] ==> |r| <= |text|
    ensures text != [] && Replaces(replacement) ==> |r| == |text|
  {
    var out := Filtered(text, replacement, fancy, invalids);
    if out == [] then Placeholder
    else if AllValid(text, invalids) then text
    else out
  }

  /** The sanitizer itself: one pass over `text` appending to a buffer, with
    * a flag that records whether any character was forbidden. */
  method MakeValidFileName(text: string, invalids: seq<char>, replacement: Option<char> := Some('_'), fancy: bool := true)
    returns (r: string)
    ensures r == Sanitized(text, replacement, fancy, invalids)
    ensures AllValid(text, invalids) && text != [] ==> r == text
  {
    var sb: string := [];
    var changed := false;
    for i := 0 to |text|
      invariant sb == Filtered(text[..i], replacement, fancy, invalids)
      invariant changed <==> !AllValid(text[..i], invalids)
    {
      var c := text[i];
      assert text[..i + 1][..i] == text[..i];
      if c in invalids {
        changed := true;
        var repl := replacement.GetOr(Nul);
        if fancy {
          if c == '"' {
            repl := RightDoubleQuote;
          } else if c == '\'' {
            repl := RightSingleQuote;
          } else if c == '/' {
            repl := FractionSlash;
          }
        }
        if repl != Nul {
          sb := sb + [repl];
        }
      } else {
        sb := sb + [c];
      }
    }
    assert text[..|text|] == text;
    if |sb| == 0 {
      return Placeholder;
    }
    r := if changed then sb else text;
    if !changed {
      FilteredOfValid(text, replacement, fancy, invalids);
    }
  }

  // ---------------------------------------------------------------------
  // Properties of the specification
  // ---------------------------------------------------------------------

  /** The buffer of a concatenation is the concatenation of the buffers:
    * each character is handled on its own, without look-behind. */
  lemma {:induction false} FilteredAppend(a: string, b: string, replacement: Option<char>, fancy: bool, invalids: seq<char>)
    ensures Filtered(a + b, replacement, fancy, invalids)
         == Filtered(a, replacement, fancy, invalids) + Filtered(b, replacement, fancy, invalids)
    decreases |b|
  {
    if b == [] {
      assert a + b == a;
    } else {
      var b', last := b[..|b| - 1], b[|b| - 1];
      var ab := a + b;
      assert ab[..|ab| - 1] == a + b';
      assert ab[|ab| - 1] == last;
      calc {
        Filtered(ab, replacement, fancy, invalids);
        Filtered(a + b', replacement, fancy, invalids) + CharImage(last, replacement, fancy, invalids);
        { FilteredAppend(a, b', replacement, fancy, invalids); }
        Filtered(a, replacement, fancy, invalids) + Filtered(b', replacement, fancy, invalids)
          + CharImage(last, replacement, fancy, invalids);
        Filtered(a, replacement, fancy, invalids) + Filtered(b, replacement, fancy, invalids);
      }
    }
  }

  /** Where the image of `text[i]` lands: after the buffer of the characters
    * before it and before the buffer of the characters after it. */
  lemma Placement(text: string, i: int, replacement: Option<char>, fancy: bool, invalids: seq<char>)
    requires 0 <= i < |text|
    ensures Filtered(text, replacement, fancy, invalids)
         == Filtered(text[..i], replacement, fancy, invalids)
            + CharImage(text[i], replacement, fancy, invalids)
            + Filtered(text[i + 1..], replacement, fancy, invalids)
  {
    assert text == (text[..i] + [text[i]]) + text[i + 1..];
    FilteredAppend(text[..i] + [text[i]], text[i + 1..], replacement, fancy, invalids);
    assert (text[..i] + [text[i]])[..i] == text[..i];
  }

  /** A text with no forbidden character passes through the buffer as it is. */
  lemma {:induction false} FilteredOfValid(text: string, replacement: Option<char>, fancy: bool, invalids: seq<char>)
    requires AllValid(text, invalids)
    ensures Filtered(text, replacement, fancy, invalids) == text
  {
    if text != [] {
      FilteredOfValid(text[..|text| - 1], replacement, fancy, invalids);
    }
  }

  /** The buffer is empty exactly when every character of the text is one
    * that is deleted. */
  lemma {:induction false} FilteredEmptyIff(text: string, replacement: Option<char>, fancy: bool, invalids: seq<char>)
    ensures Filtered(text, replacement, fancy, invalids) == []
        <==> forall i :: 0 <= i < |text| ==> CharImage(text[i], replacement, fancy, invalids) == []
  {
    if text != [] {
      var init := text[..|text| - 1];
      FilteredEmptyIff(init, replacement, fancy, invalids);
      assert forall i :: 0 <= i < |init| ==> init[i] == text[i];
    }
  }

  /** An empty text, or one whose every character is deleted, yields "_";
    * otherwise the result is the accumulated buffer, so the `changed` flag
    * decides only whether a copy is returned, never the value. */
  lemma PlaceholderOrBuffer(text: string, replacement: Option<char>, fancy: bool, invalids: seq<char>)
    ensures (forall i :: 0 <= i < |text| ==> CharImage(text[i], replacement, fancy, invalids) == [])
        ==> Sanitized(text, replacement, fancy, invalids) == Placeholder
    ensures (exists i :: 0 <= i < |text| && CharImage(text[i], replacement, fancy, invalids) != [])
        ==> Sanitized(text, replacement, fancy, invalids) == Filtered(text, replacement, fancy, invalids)
  {
    FilteredEmptyIff(text, replacement, fancy, invalids);
    if AllValid(text, invalids) {
      FilteredOfValid(text, replacement, fancy, invalids);
    }
  }

  /** Where the image of `text[i]` starts in the output. */
  function Position(text: string, i: int, replacement: Option<char>, fancy: bool, invalids: seq<char>): nat
    requires 0 <= i <= |text|
  {
    |Filtered(text[..i], replacement, fancy, invalids)|
  }

  /** If `text[i]` produces a character, that character is at `Position(i)`
    * of the result; positions keep the order of the input. */
  lemma ImageInResult(text: string, i: int, replacement: Option<char>, fancy: bool, invalids: seq<char>)
    requires 0 <= i < |text|
    requires CharImage(text[i], replacement, fancy, invalids) != []
    ensures Position(text, i, replacement, fancy, invalids) < |Sanitized(text, replacement, fancy, invalids)|
    ensures Sanitized(text, replacement, fancy, invalids)[Position(text, i, replacement, fancy, invalids)]
         == CharImage(text[i], replacement, fancy, invalids)[0]
  {
    Placement(text, i, replacement, fancy, invalids);
    PlaceholderOrBuffer(text, replacement, fancy, invalids);
  }

  /** Earlier characters land strictly before later ones that produce output. */
  lemma PositionsOrdered(text: string, i: int, j: int, replacement: Option<char>, fancy: bool, invalids: seq<char>)
    requires 0 <= i < j <= |text|
    ensures Position(text, i, replacement, fancy, invalids) + |CharImage(text[i], replacement, fancy, invalids)|
         <= Position(text, j, replacement, fancy, invalids)
  {
    var pre := text[..j];
    assert pre[..i] == text[..i] && pre[i] == text[i];
    Placement(pre, i, replacement, fancy, invalids);
  }

  /** An allowed character is copied to the result unchanged, also when
    * `fancy` is on: the look-alikes apply to forbidden characters only. */
  lemma ValidCharCopied(text: string, i: int, replacement: Option<char>, fancy: bool, invalids: seq<char>)
    requires 0 <= i < |text| && text[i] !in invalids
    ensures Position(text, i, replacement, fancy, invalids) < |Sanitized(text, replacement, fancy, invalids)|
    ensures Sanitized(text, replacement, fancy, invalids)[Position(text, i, replacement, fancy, invalids)] == text[i]
  {
    ImageInResult(text, i, replacement, fancy, invalids);
  }

  /** With `fancy` on, a forbidden `"`, `'` or `/` becomes U+201D, U+2019 or
    * U+2044, whatever the replacement (also a missing one). */
  lemma FancyLookAlike(text: string, i: int, replacement: Option<char>, invalids: seq<char>)
    requires 0 <= i < |text| && text[i] in invalids && IsFancy(text[i])
    ensures Position(text, i, replacement, true, invalids) < |Sanitized(text, replacement, true, invalids)|
    ensures text[i] == '"' ==> Sanitized(text, replacement, true, invalids)[Position(text, i, replacement, true, invalids)] == '\U{201D}'
    ensures text[i] == '\'' ==> Sanitized(text, replacement, true, invalids)[Position(text, i, replacement, true, invalids)] == '\U{2019}'
    ensures text[i] == '/' ==> Sanitized(text, replacement, true, invalids)[Position(text, i, replacement, true, invalids)] == '\U{2044}'
  {
    ImageInResult(text, i, replacement, true, invalids);
  }

  /** Any other forbidden character becomes the replacement character. */
  lemma ReplacedByReplacement(text: string, i: int, replacement: Option<char>, fancy: bool, invalids: seq<char>)
    requires 0 <= i < |text| && text[i] in invalids && !(fancy && IsFancy(text[i]))
    requires Replaces(replacement)
    ensures Position(text, i, replacement, fancy, invalids) < |Sanitized(text, replacement, fancy, invalids)|
    ensures Sanitized(text, replacement, fancy, invalids)[Position(text, i, replacement, fancy, invalids)] == replacement.value
  {
    ImageInResult(text, i, replacement, fancy, invalids);
  }

  /** With no replacement (or NUL), any other forbidden character is dropped:
    * the output around it is that of the text without it. */
  lemma DeletedWithoutReplacement(text: string, i: int, replacement: Option<char>, fancy: bool, invalids: seq<char>)
    requires 0 <= i < |text| && text[i] in invalids && !(fancy && IsFancy(text[i]))
    requires !Replaces(replacement)
    ensures Filtered(text, replacement, fancy, invalids)
         == Filtered(text[..i] + text[i + 1..], replacement, fancy, invalids)
  {
    Placement(text, i, replacement, fancy, invalids);
    FilteredAppend(text[..i], text[i + 1..], replacement, fancy, invalids);
  }

  /** The characters the buffer may gain in place of a forbidden one are all
    * allowed: the replacement and, with `fancy` on, the three look-alikes. */
  predicate SafeSubstitutes(replacement: Option<char>, fancy: bool, invalids: seq<char>)
  {
    && (Replaces(replacement) ==> replacement.value !in invalids)
    && (fancy ==> RightDoubleQuote !in invalids && RightSingleQuote !in invalids && FractionSlash !in invalids)
  }

  lemma {:induction false} FilteredHasNoInvalid(text: string, replacement: Option<char>, fancy: bool, invalids: seq<char>)
    requires SafeSubstitutes(replacement, fancy, invalids)
    ensures forall k :: 0 <= k < |Filtered(text, replacement, fancy, invalids)|
              ==> Filtered(text, replacement, fancy, invalids)[k] !in invalids
  {
    if text != [] {
      FilteredHasNoInvalid(text[..|text| - 1], replacement, fancy, invalids);
    }
  }

  /** If the substitutes are allowed, the result contains no forbidden
    * character, provided "_" is allowed too or the buffer is not empty (the
    * placeholder is written without a check). */
  lemma ResultHasNoInvalid(text: string, replacement: Option<char>, fancy: bool, invalids: seq<char>)
    requires SafeSubstitutes(replacement, fancy, invalids)
    requires Placeholder[0] !in invalids || Filtered(text, replacement, fancy, invalids) != []
    ensures forall k :: 0 <= k < |Sanitized(text, replacement, fancy, invalids)|
              ==> Sanitized(text, replacement, fancy, invalids)[k] !in invalids
  {
    FilteredHasNoInvalid(text, replacement, fancy, invalids);
  }

  // ---------------------------------------------------------------------
  // Worked examples, with an illustrative set of forbidden characters
  // ---------------------------------------------------------------------

  const SampleInvalids: seq<char> := ['"', '\'', '/', '*', Nul]

  lemma ExampleFancy()
    ensures Sanitized("a\"b'c/d", Some('_'), true, SampleInvalids) == "a\U{201D}b\U{2019}c\U{2044}d"
  {
    var t, r, f := "a\"b'c/d", Some('_'), true;
    assert Filtered(t[..1], r, f, SampleInvalids) == "a" by { assert t[..1][..0] == []; }
    assert Filtered(t[..2], r, f, SampleInvalids) == "a\U{201D}" by { assert t[..2][..1] == t[..1]; }
    assert Filtered(t[..3], r, f, SampleInvalids) == "a\U{201D}b" by { assert t[..3][..2] == t[..2]; }
    assert Filtered(t[..4], r, f, SampleInvalids) == "a\U{201D}b\U{2019}" by { assert t[..4][..3] == t[..3]; }
    assert Filtered(t[..5], r, f, SampleInvalids) == "a\U{201D}b\U{2019}c" by { assert t[..5][..4] == t[..4]; }
    assert Filtered(t[..6], r, f, SampleInvalids) == "a\U{201D}b\U{2019}c\U{2044}" by { assert t[..6][..5] == t[..5]; }
    assert Filtered(t, r, f, SampleInvalids) == "a\U{201D}b\U{2019}c\U{2044}d" by { assert t[..6] == t[..|t| - 1]; }
    assert !AllValid(t, SampleInvalids) by { assert t[1] in SampleInvalids; }
  }

  lemma ExampleDelete()
    ensures Sanitized("bad*char", None, false, SampleInvalids) == "badchar"
  {
    var t, r, f := "bad*char", None, false;
    assert Filtered(t[..1], r, f, SampleInvalids) == "b" by { assert t[..1][..0] == []; }
    assert Filtered(t[..2], r, f, SampleInvalids) == "ba" by { assert t[..2][..1] == t[..1]; }
    assert Filtered(t[..3], r, f, SampleInvalids) == "bad" by { assert t[..3][..2] == t[..2]; }
    assert Filtered(t[..4], r, f, SampleInvalids) == "bad" by { assert t[..4][..3] == t[..3]; }
    assert Filtered(t[..5], r, f, SampleInvalids) == "badc" by { assert t[..5][..4] == t[..4]; }
    assert Filtered(t[..6], r, f, SampleInvalids) == "badch" by { assert t[..6][..5] == t[..5]; }
    assert Filtered(t[..7], r, f, SampleInvalids) == "badcha" by { assert t[..7][..6] == t[..6]; }
    assert Filtered(t, r, f, SampleInvalids) == "badchar" by { assert t[..7] == t[..|t| - 1]; }
    assert !AllValid(t, SampleInvalids) by { assert t[3] in SampleInvalids; }
  }

  lemma ExampleReplaceAll()
    ensures Sanitized("***", Some('_'), false, SampleInvalids) == "___"
    ensures Sanitized("***", None, false, SampleInvalids) == Placeholder
  {
    var t := "***";
    assert Filtered(t[..1], Some('_'), false, SampleInvalids) == "_" by { assert t[..1][..0] == []; }
    assert Filtered(t[..2], Some('_'), false, SampleInvalids) == "__" by { assert t[..2][..1] == t[..1]; }
    assert Filtered(t, Some('_'), false, SampleInvalids) == "___" by { assert t[..2] == t[..|t| - 1]; }
    assert Filtered(t[..1], None, false, SampleInvalids) == [] by { assert t[..1][..0] == []; }
    assert Filtered(t[..2], None, false, SampleInvalids) == [] by { assert t[..2][..1] == t[..1]; }
    assert Filtered(t, None, false, SampleInvalids) == [] by { assert t[..2] == t[..|t| - 1]; }
    assert !AllValid(t, SampleInvalids) by { assert t[0] in SampleInvalids; }
  }
}
