/**
 * The set of characters a text field allows, from the author's list to the two words that the
 * codec tests.
 */
module AsciiSets {
  import opened Bytes
  import opened TextTemplates

  // ---------------------------------------------------------------- single bits of a word

  lemma TwiceApart(x: bv64, y: bv64)
    requires !HasFlag(x, y)
    ensures !HasFlag(Twice(x), Twice(y))
  {
  }

  lemma LowestApart(y: bv64)
    ensures !HasFlag(1, Twice(y))
  {
  }

  lemma AndSwapped(x: bv64, y: bv64)
    ensures HasFlag(x, y) == HasFlag(y, x)
  {
  }

  lemma {:induction false} FlagsApart(j: nat, k: nat)
    requires j < k
    ensures !HasFlag(Flag(j), Flag(k))
  {
    hide Twice, HasFlag;
    if j == 0 {
      LowestApart(Flag(k - 1));
    } else {
      FlagsApart(j - 1, k - 1);
      TwiceApart(Flag(j - 1), Flag(k - 1));
    }
  }

  lemma EightTimes(x: bv64)
    ensures Twice(Twice(Twice(Twice(Twice(Twice(Twice(Twice(x)))))))) == x << 8
  {
  }

  lemma EightFurther(k: nat)
    ensures Flag(k + 8) == Flag(k) << 8
  {
    hide Twice;
    EightTimes(Flag(k));
    assert Flag(k + 2) == Twice(Flag(k + 1)) && Flag(k + 3) == Twice(Flag(k + 2));
    assert Flag(k + 4) == Twice(Flag(k + 3)) && Flag(k + 5) == Twice(Flag(k + 4));
    assert Flag(k + 6) == Twice(Flag(k + 5)) && Flag(k + 7) == Twice(Flag(k + 6));
  }

  lemma LastFlag()
    ensures Flag(63) != 0
  {
    assert Flag(7) == 128 by {
      assert Flag(3) == 8;
    }
    hide Flag, Twice;
    EightFurther(7);
    EightFurther(15);
    EightFurther(23);
    EightFurther(31);
    EightFurther(39);
    EightFurther(47);
    EightFurther(55);
  }

  /** No flag below the 64th is lost by the shift. */
  lemma {:induction false} FlagIsSet(k: nat)
    requires k < 64
    ensures Flag(k) != 0
    decreases 64 - k
  {
    if k == 63 {
      LastFlag();
    } else {
      FlagIsSet(k + 1);
    }
  }

  function With(w: bv64, x: bv64): bv64 {
    w | x
  }

  lemma AndOverOr(w: bv64, x: bv64, y: bv64)
    ensures (w | x) & y == (w & y) | (x & y)
  {
  }

  lemma OrNothing(w: bv64, x: bv64, y: bv64)
    requires x & y == 0
    ensures (w & y) | (x & y) == w & y
  {
  }

  lemma Unaffected(w: bv64, x: bv64, y: bv64)
    requires x & y == 0
    ensures (w | x) & y == w & y
  {
    AndOverOr(w, x, y);
    OrNothing(w, x, y);
  }

  lemma WithUnaffected(w: bv64, x: bv64, y: bv64)
    requires x & y == 0
    ensures With(w, x) & y == w & y
  {
    Unaffected(w, x, y);
  }

  lemma NothingCommon(x: bv64, y: bv64)
    requires !HasFlag(x, y)
    ensures x & y == 0
  {
  }

  lemma SameFlag(w: bv64, x: bv64, y: bv64)
    requires w & y == x & y
    ensures HasFlag(w, y) == HasFlag(x, y)
  {
  }

  lemma OrApart(w: bv64, x: bv64, y: bv64)
    requires !HasFlag(x, y)
    ensures HasFlag(With(w, x), y) == HasFlag(w, y)
  {
    hide With, HasFlag;
    NothingCommon(x, y);
    WithUnaffected(w, x, y);
    SameFlag(With(w, x), w, y);
  }

  lemma OrSame(w: bv64, y: bv64)
    requires y != 0
    ensures HasFlag(With(w, y), y)
  {
  }

  /** Setting a flag sets that one and no other. */
  lemma FlagAdded(w: bv64, j: nat, k: nat)
    requires j < 64 && k < 64
    ensures HasFlag(With(w, Flag(j)), Flag(k)) <==> j == k || HasFlag(w, Flag(k))
  {
    hide Flag, HasFlag, With;
    if j == k {
      FlagIsSet(k);
      OrSame(w, Flag(k));
    } else {
      if j < k {
        FlagsApart(j, k);
      } else {
        FlagsApart(k, j);
        AndSwapped(Flag(j), Flag(k));
      }
      OrApart(w, Flag(j), Flag(k));
    }
  }

  // ---------------------------------------------------------------- building the set

  /** One more character: it is allowed now, and no other is that was not. */
  method AddAllowedAscii(field: TextField, value: byte) returns (more: TextField)
    requires value < 128
    ensures more.minLength == field.minLength && more.maxLength == field.maxLength
    ensures forall c: byte ::
              FieldAllowsAscii(more, c) <==> c == value || FieldAllowsAscii(field, c)
  {
    hide Flag, HasFlag, With;
    more := if value < 64 then field.(allowedLow := With(field.allowedLow, Flag(value)))
            else field.(allowedHigh := With(field.allowedHigh, Flag(value - 64)));
    forall c: byte
      ensures FieldAllowsAscii(more, c) <==> c == value || FieldAllowsAscii(field, c)
    {
      if c < 128 {
        var word := if value < 64 then field.allowedLow else field.allowedHigh;
        FlagAdded(word, value % 64, c % 64);
      }
    }
  }

  /**
   * The compiler's set for a text field: the printable characters, and the control bytes that the
   * author lists, which must be control bytes in ascending order.
   */
  method ParseAllowed(minLength: nat, maxLength: nat, controls: bytes)
    returns (ok: bool, field: TextField)
    ensures ok <==>
            && (forall i | 0 <= i < |controls| :: controls[i] <= 0x1F || controls[i] == 0x7F)
            && forall i | 0 < i < |controls| :: controls[i - 1] < controls[i]
    ensures field.minLength == minLength && field.maxLength == maxLength
    ensures ok ==> forall c: byte ::
                     FieldAllowsAscii(field, c) <==> 0x20 <= c <= 0x7E || c in controls
  {
    hide FieldAllowsAscii;
    field := TextField(minLength, maxLength, 0, 0);
    NothingAllowed(field);
    for character := 0x20 to 0x7F
      invariant field.minLength == minLength && field.maxLength == maxLength
      invariant forall c: byte :: FieldAllowsAscii(field, c) <==> 0x20 <= c < character
    {
      field := AddAllowedAscii(field, character);
    }
    var previous: int := -1;
    for k := 0 to |controls|
      invariant field.minLength == minLength && field.maxLength == maxLength
      invariant forall i | 0 <= i < k :: controls[i] <= 0x1F || controls[i] == 0x7F
      invariant forall i | 0 < i < k :: controls[i - 1] < controls[i]
      invariant previous == if k == 0 then -1 else controls[k - 1]
      invariant forall c: byte ::
                  FieldAllowsAscii(field, c) <==> 0x20 <= c <= 0x7E || c in controls[..k]
    {
      var character := controls[k];
      assert controls[..k + 1] == controls[..k] + [character];
      if (character > 0x1F && character != 0x7F) || character <= previous {
        return false, field;
      }
      field := AddAllowedAscii(field, character);
      previous := character;
    }
    assert controls[..|controls|] == controls;
    ok := true;
  }

  lemma NothingAllowed(field: TextField)
    requires field.allowedLow == 0 && field.allowedHigh == 0
    ensures forall c: byte :: !FieldAllowsAscii(field, c)
  {
    forall c: byte
      ensures !FieldAllowsAscii(field, c)
    {
      NoFlag(Flag(c % 64));
    }
  }

  lemma NoFlag(x: bv64)
    ensures !HasFlag(0, x)
  {
  }
}
