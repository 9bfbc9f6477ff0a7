/**
 * src/NuklearWrapper.cpp, NuklearWrapper::numbersOnlyFilter: the filter a
 * numeric text field runs on each typed character. It lets through digits
 * and a single decimal point, up to four characters; a point is refused as
 * the first character of an empty field, but not when typed at the start of
 * a field that already holds digits.
 */
module Nuklear {

  /** isdigit */
  predicate IsDigit(c: char)
  {
    '0' <= c <= '9'
  }

  /**
   * Whether the filter lets unicode be appended to text: nothing past three
   * characters, a digit up to three, a point only after something and only
   * if there is none yet, and any other character never.
   */
  function Accepts(text: string, unicode: char): (r: bool)
    ensures |text| > 3 ==> !r
    ensures IsDigit(unicode) ==> (r <==> |text| <= 3)
    ensures unicode == '.' ==> (r <==> 0 < |text| <= 3 && '.' !in text)
    ensures !IsDigit(unicode) && unicode != '.' ==> !r
  {
    if |text| == 0 && unicode == '.' then false
    else |text| <= 3 && (IsDigit(unicode) || ('.' !in text && unicode == '.'))
  }

  /**
   * Scans text for an existing decimal point, as the filter does, and answers
   * as Accepts does.
   */
  method NumbersOnlyFilter(text: string, unicode: char) returns (accepted: bool)
    ensures accepted == Accepts(text, unicode)
  {
    var len := |text|;
    if len == 0 && unicode == '.' {
      return false;
    }
    var hasDot := false;
    var i := 0;
    while i < len
      invariant 0 <= i <= len
      invariant !hasDot ==> '.' !in text[..i]
      invariant hasDot ==> '.' in text
    {
      if text[i] == '.' {
        hasDot := true;
        break;
      }
      i := i + 1;
    }
    assert !hasDot ==> text[..i] == text;
    return len <= 3 && (IsDigit(unicode) || (!hasDot && unicode == '.'));
  }

  /**
   * One edit of the field: a typed character that replaces the text between
   * two cursor positions (an empty span is a plain insertion at the cursor),
   * or an erasure of the text between two cursor positions (backspace,
   * delete, cut). The filter sees the whole text before the edit.
   */
  datatype Edit = Type(from: nat, to: nat, c: char) | Erase(from: nat, to: nat)

  /** A cursor position, clamped to the text */
  function Clamp(n: nat, text: string): (r: nat)
    ensures r <= |text| && (n <= |text| ==> r == n)
  {
    if n <= |text| then n else |text|
  }

  /** The field's text after one edit */
  function Apply(text: string, e: Edit): string
  {
    var a, b := Clamp(e.from, text), Clamp(e.to, text);
    var lo, hi := if a <= b then a else b, if a <= b then b else a;
    match e
    case Type(_, _, c) => if Accepts(text, c) then text[..lo] + [c] + text[hi..] else text
    case Erase(_, _) => text[..lo] + text[hi..]
  }

  /** The field's text after a run of edits on an empty field */
  function Edited(edits: seq<Edit>): string
    decreases |edits|
  {
    if edits == [] then "" else Apply(Edited(edits[..|edits| - 1]), edits[|edits| - 1])
  }

  /** The field's text after typing keys into an empty field, each at the end, each kept only if the filter accepts it */
  function Typed(keys: seq<char>): string
    decreases |keys|
  {
    if keys == [] then ""
    else
      var text := Typed(keys[..|keys| - 1]);
      var c := keys[|keys| - 1];
      if Accepts(text, c) then text + [c] else text
  }

  /** At most four characters, only digits and points, and at most one point */
  ghost predicate FieldNumber(text: string)
  {
    && |text| <= 4
    && (forall ch | ch in text :: IsDigit(ch) || ch == '.')
    && multiset(text)['.'] <= 1
  }

  /** A field number that does not start with a point */
  ghost predicate WellFormedNumber(text: string)
  {
    FieldNumber(text) && (|text| > 0 ==> text[0] != '.')
  }

  /** Replacing text[lo..hi] by mid: what the result is made of */
  lemma Splice(text: string, lo: nat, hi: nat, mid: string)
    requires lo <= hi <= |text|
    ensures var r := text[..lo] + mid + text[hi..];
            && |r| == |text| - (hi - lo) + |mid|
            && multiset(r)['.'] <= multiset(text)['.'] + multiset(mid)['.']
            && forall ch | ch in r :: ch in text || ch in mid
  {
    assert text == text[..lo] + text[lo..hi] + text[hi..];
    assert multiset(text) == multiset(text[..lo]) + multiset(text[lo..hi]) + multiset(text[hi..]);
  }

  /** One edit keeps a field number a field number */
  lemma ApplyKeepsFieldNumber(text: string, e: Edit)
    requires FieldNumber(text)
    ensures FieldNumber(Apply(text, e))
  {
    if e.Type? && !Accepts(text, e.c) {
      assert Apply(text, e) == text;
    } else {
      var a, b := Clamp(e.from, text), Clamp(e.to, text);
      var lo, hi := if a <= b then a else b, if a <= b then b else a;
      var mid: string := if e.Type? then [e.c] else [];
      assert Apply(text, e) == text[..lo] + mid + text[hi..];
      Splice(text, lo, hi, mid);
      if mid == ['.'] {
        assert '.' !in text;
        assert multiset(text)['.'] == 0;
      }
      assert forall ch | ch in mid :: IsDigit(ch) || ch == '.';
      assert |mid| == 1 ==> |text| <= 3;
    }
  }

  /**
   * Whatever edits are made, typing at the cursor, replacing a selection or
   * erasing, the field holds at most four characters, only digits and points,
   * and at most one point.
   */
  lemma {:induction false} EditedIsFieldNumber(edits: seq<Edit>)
    ensures FieldNumber(Edited(edits))
    decreases |edits|
  {
    if edits != [] {
      EditedIsFieldNumber(edits[..|edits| - 1]);
      ApplyKeepsFieldNumber(Edited(edits[..|edits| - 1]), edits[|edits| - 1]);
    }
  }

  /**
   * Typing "1" and "2" and then a point at the start of the field gives ".12":
   * the filter refuses a leading point only in an empty field.
   */
  lemma LeadingPointAtCursor()
    ensures Edited([Type(0, 0, '1'), Type(1, 1, '2'), Type(0, 0, '.')]) == ".12"
    ensures !WellFormedNumber(".12")
  {
    var e := [Type(0, 0, '1'), Type(1, 1, '2'), Type(0, 0, '.')];
    assert Apply("", e[0]) == "1" by {
      assert Accepts("", '1');
    }
    assert Apply("1", e[1]) == "12" by {
      assert Accepts("1", '2');
      assert "1"[..1] + ['2'] + "1"[1..] == "12";
    }
    assert Apply("12", e[2]) == ".12" by {
      assert Accepts("12", '.');
      assert "12"[..0] + ['.'] + "12"[0..] == ".12";
    }
    assert e[..1] == [e[0]] && e[..2] == [e[0], e[1]];
    assert e[..1][..0] == [];
    assert Edited(e[..1]) == "1";
    assert e[..2][..1] == e[..1];
    assert Edited(e[..2]) == "12";
  }

  /**
   * Characters typed at the end only, with no deletion or cursor movement: the
   * field is a field number and does not start with a point.
   */
  lemma {:induction false} TypedIsWellFormed(keys: seq<char>)
    ensures WellFormedNumber(Typed(keys))
    decreases |keys|
  {
    if keys != [] {
      var text := Typed(keys[..|keys| - 1]);
      var c := keys[|keys| - 1];
      TypedIsWellFormed(keys[..|keys| - 1]);
      if Accepts(text, c) {
        ApplyKeepsFieldNumber(text, Type(|text|, |text|, c));
        assert text[..|text|] + [c] + text[|text|..] == text + [c];
        if |text| == 0 {
          assert c != '.';
        } else {
          assert (text + [c])[0] == text[0];
        }
      }
    }
  }
}
