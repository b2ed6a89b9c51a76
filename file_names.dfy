/** The file name shown while a classic upload runs: the input's value is
    matched against the regular expression `(\\|\/)([^\\|\/]+)$` and the
    second group is the name; without a match the whole value is the name. */
module FileNames {
  import opened Values

  /** The first group of the expression: a backslash or a slash. */
  predicate IsSeparator(c: char)
  {
    c == '/' || c == '\\'
  }

  /** The character class `[^\\|\/]`. */
  predicate InNameClass(c: char)
  {
    c != '\\' && c != '|' && c != '/'
  }

  /** The expression matches `value` with its first group at position `i`:
      a separator, then one or more characters of the class, then the end of
      the input (`$` without the multiline flag). */
  ghost predicate MatchesAt(value: string, i: int)
  {
    && 0 <= i < |value| - 1
    && IsSeparator(value[i])
    && forall j :: i < j < |value| ==> InNameClass(value[j])
  }

  /** The position of the last separator in `value`, if there is one. */
  function LastSeparator(value: string): (r: Option<nat>)
    ensures r.Some? ==>
      && r.value < |value|
      && IsSeparator(value[r.value])
      && forall j :: r.value < j < |value| ==> !IsSeparator(value[j])
    ensures r.None? ==> forall j :: 0 <= j < |value| ==> !IsSeparator(value[j])
  {
    if value == [] then None
    else if IsSeparator(value[|value| - 1]) then Some(|value| - 1)
    else LastSeparator(value[..|value| - 1])
  }

  /** `e ? e[2] : value`: the text after the last separator when it is
      non-empty and holds no `|`; the whole value otherwise. */
  function FileName(value: string): (r: string)
    ensures |r| <= |value| && r == value[|value| - |r|..]
    ensures r != value ==>
      && r != []
      && |r| < |value| && IsSeparator(value[|value| - |r| - 1])
      && forall j :: 0 <= j < |r| ==> InNameClass(r[j])
  {
    match LastSeparator(value)
    case None => value
    case Some(i) =>
      var tail := value[i + 1..];
      if tail != [] && '|' !in tail then
        assert forall j :: 0 <= j < |tail| ==> tail[j] == value[i + 1 + j];
        tail
      else value
  }

  /** Where the expression matches at `i`, `i` is the last separator and
      the name is the text after it. */
  lemma FileNameOfMatch(value: string, i: int)
    requires MatchesAt(value, i)
    ensures FileName(value) == value[i + 1..]
  {
    var tail := value[i + 1..];
    var last := LastSeparator(value);
    assert InNameClass(value[|value| - 1]);
    assert last == Some(i);
    assert '|' !in tail by {
      forall j | 0 <= j < |tail| ensures tail[j] != '|' {
        assert tail[j] == value[i + 1 + j];
        assert InNameClass(value[i + 1 + j]);
      }
    }
  }

  /** FileName agrees with the regular expression: where the expression
      matches, the name is its second group; where it does not, the name is
      the whole value. */
  lemma FileNameMatchesRegex(value: string)
    ensures forall i :: MatchesAt(value, i) ==> FileName(value) == value[i + 1..]
    ensures (forall i :: !MatchesAt(value, i)) ==> FileName(value) == value
  {
    forall i | MatchesAt(value, i)
      ensures FileName(value) == value[i + 1..]
    {
      FileNameOfMatch(value, i);
    }
    var r := FileName(value);
    if r != value {
      var k := |value| - |r| - 1;
      assert MatchesAt(value, k) by {
        forall j | k < j < |value| ensures InNameClass(value[j]) {
          assert value[j] == r[j - k - 1];
        }
      }
    }
  }
}
