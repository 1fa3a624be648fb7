/** `EnvRef::format`: the normaliser for names given to environment
    arguments. The text is lower-cased and every `_` becomes a space;
    spaces already there stay. */
module EnvironmentReference {
  import opened Ascii
  import References

  /** `replace("_", " ")`, character by character. */
  function UnderscoresToSpaces(s: string): string
  {
    if |s| == 0 then []
    else UnderscoresToSpaces(s[..|s| - 1]) + [if s[|s| - 1] == '_' then ' ' else s[|s| - 1]]
  }

  /** `format(&self)`: lower-case, then turn `_` into spaces. */
  function EnvFormat(s: string): string
  {
    UnderscoresToSpaces(LowerAll(s))
  }

  /** Replacing underscores keeps the length and acts position by
      position. */
  lemma {:induction false} UnderscoresToSpacesAt(s: string)
    ensures |UnderscoresToSpaces(s)| == |s|
    ensures forall i | 0 <= i < |s| ::
              UnderscoresToSpaces(s)[i] == if s[i] == '_' then ' ' else s[i]
    decreases |s|
  {
    if |s| > 0 {
      UnderscoresToSpacesAt(s[..|s| - 1]);
    }
  }

  /** The result has the input's length; position `i` holds a space where
      the input has `_` and the lower-cased input character elsewhere. */
  lemma EnvFormatAt(s: string)
    ensures |EnvFormat(s)| == |s|
    ensures forall i | 0 <= i < |s| :: EnvFormat(s)[i] == if s[i] == '_' then ' ' else Lower(s[i])
  {
    UnderscoresToSpacesAt(LowerAll(s));
  }

  /** No `_` and no upper-case letter is left, and every space of the input
      is still there. */
  lemma EnvFormatClean(s: string)
    ensures forall i | 0 <= i < |EnvFormat(s)| :: EnvFormat(s)[i] != '_' && !IsUpper(EnvFormat(s)[i])
    ensures |EnvFormat(s)| == |s|
    ensures forall i | 0 <= i < |s| && s[i] == ' ' :: EnvFormat(s)[i] == ' '
  {
    EnvFormatAt(s);
  }

  /** Formatting is idempotent. */
  lemma EnvFormatIdempotent(s: string)
    ensures EnvFormat(EnvFormat(s)) == EnvFormat(s)
  {
    var t := EnvFormat(s);
    EnvFormatAt(s);
    EnvFormatAt(t);
    assert forall i | 0 <= i < |t| :: EnvFormat(t)[i] == t[i];
  }

  /** Both normalisers agree once separators are dropped: the reference
      key of an environment name is the reference key of the raw name. */
  lemma {:induction false} KeyOfEnvFormat(s: string)
    ensures References.Format(EnvFormat(s)) == References.Format(s)
    decreases |s|
  {
    if |s| > 0 {
      var s' := s[..|s| - 1];
      var c := s[|s| - 1];
      KeyOfEnvFormat(s');
      EnvFormatAt(s);
      EnvFormatAt(s');
      var e := if c == '_' then ' ' else Lower(c);
      assert EnvFormat(s) == EnvFormat(s') + [e];
      assert s == s' + [c];
      References.FormatAppend(EnvFormat(s'), [e]);
      References.FormatAppend(s', [c]);
      References.FormatChar(e);
      References.FormatChar(c);
    }
  }

  /** Unlike the reference key, the environment name keeps its spaces:
      "My_Arg x" becomes "my arg x", whose reference key is "myargx". */
  lemma EnvFormatKeepsSpaces()
    ensures EnvFormat("My_Arg x") == "my arg x"
    ensures References.Format("My_Arg x") == "myargx"
  {
    EnvFormatAt("My_Arg x");
    KeyOfEnvFormat("My_Arg x");
    References.FormatIgnoresSeparator("my", ' ', "arg x");
    References.FormatIgnoresSeparator("myarg", ' ', "x");
    References.FormatOfClean("myargx");
    assert "my" + [' '] + "arg x" == "my arg x";
    assert "myarg" + [' '] + "x" == "myarg x";
    assert "my" + "arg x" == "myarg x";
    assert "myarg" + "x" == "myargx";
  }
}
