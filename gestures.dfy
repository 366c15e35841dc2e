/**
  The gesture-string helpers of the add-on: the canonical "kb:<key>" form the
  item store keeps, the form shown to the user, the physical-layout variants a
  stored gesture is bound under, and the mapping of a dispatched identifier back
  to the canonical form.
*/
module Gestures {
  import opened Ascii

  /** `s.lower().startswith("kb:")`, stated character by character. */
  predicate HasKbPrefix(s: string) {
    |s| >= 3 && LowerChar(s[0]) == 'k' && LowerChar(s[1]) == 'b' && s[2] == ':'
  }

  lemma HasKbPrefixIsStartsWith(s: string)
    ensures HasKbPrefix(s) <==> StartsWith(Lower(s), "kb:")
  {
  }

  /** The canonical form: "kb:" followed by a non-empty key name with no white
      space at either end and no upper-case letter. */
  predicate IsCanonical(g: string) {
    |g| > 3 && g[..3] == "kb:"
    && IsStripped(g[3..]) && IsLower(g[3..])
  }

  /** The gesture as shown in the item list: trimmed, with a leading "kb:" (in
      any letter case) dropped. */
  function FormatGestureForDisplay(gesture: string): (r: string)
    ensures |r| <= |gesture|
  {
    if gesture == "" then ""
    else
      var g := Strip(gesture);
      if HasKbPrefix(g) then g[3..] else g
  }

  /** The canonical form of a gesture typed or captured by the user, or "" when
      nothing but white space and an optional "kb:" is left. */
  function NormalizeGesture(gesture: string): (r: string)
    ensures r == "" || IsCanonical(r)
  {
    if gesture == "" then ""
    else
      var g := Strip(gesture);
      var key := Strip(if HasKbPrefix(g) then g[3..] else g);
      if key == "" then ""
      else
        LowerKeepsStripped(key);
        LowerIsLower(key);
        var r := "kb:" + Lower(key);
        assert r[3..] == Lower(key);
        r
  }

  /** The physical-layout variants under which a stored gesture is bound: none
      for a blank gesture, the trimmed gesture itself, and for a keyboard gesture
      also its laptop-layout twin. */
  function ExpandGestureLayouts(gesture: string): (r: seq<string>)
    ensures r == [] <==> Strip(gesture) == ""
    ensures r != [] ==> r[0] == Strip(gesture)
    ensures |r| <= 2
  {
    var g := Strip(gesture);
    if g == "" then []
    else if HasKbPrefix(g) then [g, "kb(laptop):" + g[3..]]
    else [g]
  }

  /** The key under which a dispatched gesture identifier is looked up: trimmed
      and lower-cased, with a layout qualifier "kb(<layout>):" replaced by "kb:". */
  function NormalizeGestureIdentifier(gestureId: string): (r: string)
    ensures IsLower(r)
  {
    if gestureId == "" then ""
    else
      var id := Lower(Strip(gestureId));
      var closeIndex := if StartsWith(id, "kb(") then Find(id, "):") else -1;
      if closeIndex != -1 then
        KbSuffixIsLower(Strip(gestureId), closeIndex + 2);
        "kb:" + id[closeIndex + 2..]
      else
        LowerIsLower(Strip(gestureId));
        id
  }

  /** `"kb:"` followed by the tail of a lower-cased string is lower-case. */
  lemma KbSuffixIsLower(s: string, k: nat)
    requires k <= |s|
    ensures IsLower("kb:" + Lower(s)[k..])
  {
    var t := "kb:" + Lower(s)[k..];
    forall i | 0 <= i < |t| ensures !('A' <= t[i] <= 'Z') {
      if i >= 3 {
        assert t[i] == Lower(s)[k + i - 3];
      }
    }
  }

  /** The facts about a canonical gesture the lemmas below share. */
  lemma CanonicalFacts(g: string)
    requires IsCanonical(g)
    ensures g == "kb:" + g[3..]
    ensures IsStripped(g) && IsLower(g) && StartsWith(g, "kb:") && HasKbPrefix(g)
  {
    assert g == "kb:" + g[3..];
    IsLowerAppend("kb:", g[3..]);
    LowerFixesLower(g);
  }

  /** A canonical gesture is left as it is by normalisation. */
  lemma NormalizeFixesCanonical(g: string)
    requires IsCanonical(g)
    ensures NormalizeGesture(g) == g
  {
    CanonicalFacts(g);
    LowerFixesLower(g[3..]);
  }

  /** Normalising twice is normalising once. */
  lemma {:induction false} NormalizeIdempotent(g: string)
    ensures NormalizeGesture(NormalizeGesture(g)) == NormalizeGesture(g)
  {
    if NormalizeGesture(g) != "" {
      NormalizeFixesCanonical(NormalizeGesture(g));
    }
  }

  /** Displaying a normalised gesture gives exactly its key name, which is empty
      only when the normalised gesture is. */
  lemma DisplayOfNormalized(g: string)
    ensures var n := NormalizeGesture(g);
      FormatGestureForDisplay(n) == if n == "" then "" else n[3..]
    ensures NormalizeGesture(g) != "" ==> FormatGestureForDisplay(NormalizeGesture(g)) != ""
  {
    var n := NormalizeGesture(g);
    if n != "" {
      CanonicalFacts(n);
    }
  }

  /** On an identifier that is already trimmed and lower case, identifier
      normalisation only rewrites a layout qualifier. */
  lemma IdentifierOfTrimmedLower(id: string)
    requires id != "" && IsStripped(id) && IsLower(id)
    ensures var closeIndex := if StartsWith(id, "kb(") then Find(id, "):") else -1;
      NormalizeGestureIdentifier(id)
      == if closeIndex != -1 then "kb:" + id[closeIndex + 2..] else id
  {
    LowerFixesLower(id);
  }

  /** In a laptop-layout identifier the first "):" closes the qualifier. */
  lemma LaptopQualifierEnds(key: string)
    ensures Find("kb(laptop):" + key, "):") == 9
  {
    var v := "kb(laptop):" + key;
    assert OccursAt(v, "):", 9);
    forall i: nat | i < 9 ensures !OccursAt(v, "):", i) {
      assert v[i] != ')';
    }
  }

  /** The laptop-layout variant of a trimmed, lower-case "kb:" gesture is
      lower case too, and identifier normalisation maps it back to the gesture. */
  lemma LaptopVariantNormalizes(key: string)
    requires IsStripped("kb:" + key) && IsLower("kb:" + key)
    ensures IsLower("kb(laptop):" + key)
    ensures NormalizeGestureIdentifier("kb(laptop):" + key) == "kb:" + key
  {
    var v := "kb(laptop):" + key;
    IsLowerAppend("kb:", key);
    IsLowerAppend("kb(laptop):", key);
    assert IsStripped(v) by {
      if key != [] {
        assert v[|v| - 1] == ("kb:" + key)[|key| + 2];
      }
    }
    assert v[..3] == "kb(";
    LaptopQualifierEnds(key);
    IdentifierOfTrimmedLower(v);
    assert v[11..] == key;
  }

  /** A trimmed, lower-case "kb:" gesture expands to itself and its laptop
      variant, both already lower case, and identifier normalisation maps each
      variant back to the gesture. */
  lemma {:induction false} ExpandKeyboardGesture(g: string)
    requires IsStripped(g) && IsLower(g) && StartsWith(g, "kb:")
    ensures ExpandGestureLayouts(g) == [g, "kb(laptop):" + g[3..]]
    ensures forall e :: e in ExpandGestureLayouts(g) ==> IsLower(e)
    ensures forall e :: e in ExpandGestureLayouts(g) ==> NormalizeGestureIdentifier(e) == g
  {
    var key := g[3..];
    assert g == "kb:" + key;
    LowerFixesLower(g);
    assert HasKbPrefix(g);
    LaptopVariantNormalizes(key);
    assert NormalizeGestureIdentifier(g) == g;
  }

  /** A gesture that is blank after trimming has no layout variant; any other
      non-keyboard gesture has only its trimmed self. */
  lemma ExpandOtherGesture(g: string)
    ensures Strip(g) == "" ==> ExpandGestureLayouts(g) == []
    ensures Strip(g) != "" && !HasKbPrefix(Strip(g)) ==> ExpandGestureLayouts(g) == [Strip(g)]
  {
  }

  /** Every layout variant of a canonical gesture is lower case and leads back
      to it. */
  lemma {:induction false} CanonicalVariantsLeadBack(g: string)
    requires IsCanonical(g)
    ensures |ExpandGestureLayouts(g)| == 2
    ensures forall e :: e in ExpandGestureLayouts(g) ==> IsLower(e) && NormalizeGestureIdentifier(e) == g
  {
    CanonicalFacts(g);
    ExpandKeyboardGesture(g);
  }

  /** Identifier normalisation is idempotent. */
  lemma {:induction false} NormalizeIdentifierIdempotent(gestureId: string)
    ensures NormalizeGestureIdentifier(NormalizeGestureIdentifier(gestureId))
         == NormalizeGestureIdentifier(gestureId)
  {
    var r := NormalizeGestureIdentifier(gestureId);
    if gestureId != "" {
      var id := Lower(Strip(gestureId));
      LowerKeepsStripped(Strip(gestureId));
      LowerFixesLower(r);
      var closeIndex := if StartsWith(id, "kb(") then Find(id, "):") else -1;
      if closeIndex != -1 {
        var rest := id[closeIndex + 2..];
        assert r == "kb:" + rest;
        assert IsStripped(r) by {
          if rest != [] {
            assert r[|r| - 1] == id[|id| - 1];
          }
        }
        assert !StartsWith(r, "kb(");
      } else {
        assert r == id;
      }
    }
  }
}
