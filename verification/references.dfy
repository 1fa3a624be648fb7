/** `ReferenceName::format`: the key under which the test engine registers
    and looks up accounts, components and resources. The name is
    lower-cased and every `_` and space is deleted. The `&String` and `&str`
    implementations convert to `String` and call the same function, so one
    definition stands for all three. */
module References {
  import opened Ascii

  /** The characters the name formatter deletes. */
  predicate IsSeparator(c: char)
  {
    c == '_' || c == ' '
  }

  /** Deleting every separator, keeping the other characters in order. */
  function DropSeparators(s: string): string
  {
    if |s| == 0 then []
    else if IsSeparator(s[|s| - 1]) then DropSeparators(s[..|s| - 1])
    else DropSeparators(s[..|s| - 1]) + [s[|s| - 1]]
  }

  /** `format(&self)`: lower-case, then delete `_` and spaces. */
  function Format(s: string): string
  {
    DropSeparators(LowerAll(s))
  }

  /** Deleting separators distributes over concatenation. */
  lemma {:induction false} DropSeparatorsAppend(a: string, b: string)
    ensures DropSeparators(a + b) == DropSeparators(a) + DropSeparators(b)
    decreases |b|
  {
    if |b| == 0 {
      assert a + b == a;
    } else {
      var b' := b[..|b| - 1];
      assert (a + b)[..|a + b| - 1] == a + b';
      assert (a + b)[|a + b| - 1] == b[|b| - 1];
      DropSeparatorsAppend(a, b');
    }
  }

  /** `Format` is determined character by character: it distributes over
      concatenation, deletes a separator and lower-cases anything else.
      Together these pin `Format` down without its definition: the result
      is the lower-cased name with exactly the separators removed, every
      other character kept and in order. */
  lemma FormatAppend(a: string, b: string)
    ensures Format(a + b) == Format(a) + Format(b)
  {
    LowerAllAppend(a, b);
    DropSeparatorsAppend(LowerAll(a), LowerAll(b));
  }

  lemma FormatChar(c: char)
    ensures IsSeparator(c) ==> Format([c]) == []
    ensures !IsSeparator(c) ==> Format([c]) == [Lower(c)]
  {
    assert LowerAll([c]) == [Lower(c)];
    assert [Lower(c)][..0] == [];
    assert IsSeparator(Lower(c)) == IsSeparator(c);
    assert DropSeparators([Lower(c)]) == DropSeparators([]) + (if IsSeparator(c) then [] else [Lower(c)]);
  }

  /** Every character of a dropped-separators string is a character of the
      input that is not a separator. */
  lemma {:induction false} DropSeparatorsFrom(s: string)
    ensures forall i | 0 <= i < |DropSeparators(s)| ::
              !IsSeparator(DropSeparators(s)[i]) && DropSeparators(s)[i] in s
    ensures |DropSeparators(s)| <= |s|
    decreases |s|
  {
    if |s| > 0 {
      var s' := s[..|s| - 1];
      DropSeparatorsFrom(s');
      assert forall c | c in s' :: c in s;
    }
  }

  /** The formatted name has no `_`, no space and no upper-case letter. */
  lemma FormatClean(s: string)
    ensures forall i | 0 <= i < |Format(s)| :: Format(s)[i] != '_' && Format(s)[i] != ' '
    ensures forall i | 0 <= i < |Format(s)| :: !IsUpper(Format(s)[i])
    ensures |Format(s)| <= |s|
  {
    DropSeparatorsFrom(LowerAll(s));
    forall i | 0 <= i < |Format(s)|
      ensures !IsUpper(Format(s)[i])
    {
      var c := Format(s)[i];
      assert c in LowerAll(s);
      var j :| 0 <= j < |s| && LowerAll(s)[j] == c;
    }
  }

  /** A string with nothing left to lower-case or delete is its own key. */
  lemma FormatOfClean(s: string)
    requires forall i | 0 <= i < |s| :: !IsSeparator(s[i]) && !IsUpper(s[i])
    ensures Format(s) == s
  {
    assert LowerAll(s) == s;
    DropSeparatorsNone(s);
  }

  /** Deleting separators from a string that has none keeps it. */
  lemma {:induction false} DropSeparatorsNone(s: string)
    requires forall i | 0 <= i < |s| :: !IsSeparator(s[i])
    ensures DropSeparators(s) == s
    decreases |s|
  {
    if |s| > 0 {
      var s' := s[..|s| - 1];
      DropSeparatorsNone(s');
      assert s' + [s[|s| - 1]] == s;
    }
  }

  /** Formatting is idempotent. */
  lemma FormatIdempotent(s: string)
    ensures Format(Format(s)) == Format(s)
  {
    FormatClean(s);
    FormatOfClean(Format(s));
  }

  /** Names that agree after lower-casing share a key. */
  lemma FormatIgnoresCase(a: string, b: string)
    requires LowerAll(a) == LowerAll(b)
    ensures Format(a) == Format(b)
  {
  }

  /** Inserting a `_` or a space anywhere does not change the key. */
  lemma FormatIgnoresSeparator(a: string, c: char, b: string)
    requires IsSeparator(c)
    ensures Format(a + [c] + b) == Format(a + b)
  {
    FormatAppend(a + [c], b);
    FormatAppend(a, [c]);
    FormatChar(c);
    FormatAppend(a, b);
    assert Format(a) + [] == Format(a);
  }

  /** Conversely, a non-separator character is never lost: it shows up,
      lower-cased, at its place in the key. */
  lemma FormatKeepsOthers(a: string, c: char, b: string)
    requires !IsSeparator(c)
    ensures Format(a + [c] + b) == Format(a) + [Lower(c)] + Format(b)
  {
    FormatAppend(a + [c], b);
    FormatAppend(a, [c]);
    FormatChar(c);
  }

  /** "Radix", the name the engine registers its faucet under, is found
      when looked up as "radix". */
  lemma RadixFindsRadix()
    ensures Format("Radix") == Format("radix") == "radix"
  {
    FormatOfClean("radix");
    assert LowerAll("Radix") == LowerAll("radix");
  }

  /** A blueprint registered as "dutch_auction" is selected as
      "dutch auction". */
  lemma DutchAuctionKeys()
    ensures Format("dutch_auction") == Format("dutch auction") == "dutchauction"
  {
    FormatIgnoresSeparator("dutch", '_', "auction");
    FormatIgnoresSeparator("dutch", ' ', "auction");
    assert "dutch" + ['_'] + "auction" == "dutch_auction";
    assert "dutch" + [' '] + "auction" == "dutch auction";
    FormatOfClean("dutch" + "auction");
    assert "dutch" + "auction" == "dutchauction";
  }
}
