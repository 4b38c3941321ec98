/** Normalisation of the phone number typed into the new-policy form into the
    international form that a WhatsApp link expects (app.py, lines 75-77). */
module Phone {
  import opened Strings

  /** Turkey's country calling code, which every normalised number starts with. */
  const CountryCode: string := "90"

  /** `tel.replace(" ", "")`: the number with every space removed. */
  function Compact(tel: string): (r: string)
    ensures ' ' !in r
    ensures |r| == |tel| - Count(tel, ' ')
    ensures ' ' !in tel ==> r == tel
  {
    ReplaceCharLength(tel, ' ', "");
    ReplaceChar(tel, ' ', "")
  }

  /** The number as the form handler rewrites it: spaces removed, then, unless
      it already starts with the country code, its leading zeros (the trunk
      prefix) removed and the country code put in front. */
  function NormalisePhone(tel: string): (r: string)
    ensures CountryCode <= r
    ensures ' ' !in r
    // already international: kept exactly as typed, minus spaces
    ensures CountryCode <= Compact(tel) ==> r == Compact(tel)
    // otherwise the country code, then the compacted number without its
    // leading zeros: nothing else is dropped or reordered
    ensures !(CountryCode <= Compact(tel)) ==>
      var t, local := Compact(tel), r[|CountryCode|..];
      && |local| <= |t|
      && local == t[|t| - |local|..]
      && (forall i :: 0 <= i < |t| - |local| ==> t[i] == '0')
      && (local == [] || local[0] != '0')
  {
    var t := Compact(tel);
    if CountryCode <= t then t
    else
      var local := TrimLeading(t, '0');
      assert ' ' !in local by {
        assert local == t[|t| - |local|..];
      }
      assert (CountryCode + local)[|CountryCode|..] == local;
      CountryCode + local
  }

  /** No character appears in the number that was not typed, except those of
      the country code. */
  lemma NormalisePhoneAdds(tel: string, d: char)
    requires d !in tel && d !in CountryCode
    ensures d !in NormalisePhone(tel)
  {
    ReplaceCharAdds(tel, ' ', "", d);
  }

  /** Normalising a normalised number changes nothing. */
  lemma NormalisePhoneIdempotent(tel: string)
    ensures NormalisePhone(NormalisePhone(tel)) == NormalisePhone(tel)
  {
    var r := NormalisePhone(tel);
    assert Compact(r) == r;
  }

  /** A number typed with trunk zeros (`05321234567`) comes out as the
      country code followed by the number without them. After one or more
      zeros this holds even when the rest starts with the country code, so
      `0090532...` becomes `9090532...`. */
  lemma TrunkZeroIgnored(zeros: string, local: string)
    requires forall i :: 0 <= i < |zeros| ==> zeros[i] == '0'
    requires ' ' !in local
    requires local == [] || (local[0] != '0' && (zeros != [] || !(CountryCode <= local)))
    ensures NormalisePhone(zeros + local) == CountryCode + local
  {
    var typed := zeros + local;
    assert ' ' !in zeros;
    assert ' ' !in typed;
    assert Compact(typed) == typed;
    if zeros != [] {
      assert typed[0] == '0';
      assert !(CountryCode <= typed);
    } else {
      assert typed == local;
    }
    TrimLeadingRun(zeros, local, '0');
  }

  /** Removing spaces does not depend on where they were. */
  lemma CompactSpaceIgnored(before: string, after: string)
    ensures Compact(before + " " + after) == Compact(before + after)
  {
    var space: string := " ";
    var front, back := ReplaceChar(before, ' ', ""), ReplaceChar(after, ' ', "");
    calc {
      Compact(before + space + after);
      { ReplaceCharSplice(before, space, after, ' ', ""); }
      front + ReplaceChar(space, ' ', "") + back;
      { assert ReplaceChar(space, ' ', "") == []; }
      front + back;
      { ReplaceCharConcat(before, after, ' ', ""); }
      Compact(before + after);
    }
  }

  /** A space typed anywhere in the number makes no difference. */
  lemma SpaceIgnored(before: string, after: string)
    ensures NormalisePhone(before + " " + after) == NormalisePhone(before + after)
  {
    CompactSpaceIgnored(before, after);
  }
}
