/** The WhatsApp "click to chat" link the form handler builds after saving a
    policy (app.py, line 78), and a reader that takes such a link apart as a
    URL reader would, used to state what a recipient of the link sees. */
module WhatsApp {
  import opened Strings
  import opened Phone

  datatype Option<T> = None | Some(value: T)

  /** The fixed pieces of the link, in order around the phone and the name. */
  const Host: string := "https://wa.me/"
  const TextKey: string := "?text="
  const Salutation: string := "Sayın%20"
  const Greeting: string := TextKey + Salutation
  const Closing: string := ",%20sigorta%20poliçeniz%20oluşturulmuştur."

  /** `ad.replace(' ', '%20')`: only spaces are escaped; every other character,
      `%`, `&` and non-ASCII letters included, is kept as it is. */
  function EncodeName(name: string): (r: string)
    ensures ' ' !in r
    ensures |r| == |name| + 2 * Count(name, ' ')
    ensures ' ' !in name ==> r == name
  {
    ReplaceCharLength(name, ' ', "%20");
    ReplaceChar(name, ' ', "%20")
  }

  /** None of the fixed pieces contains a raw space. */
  lemma FixedPartsHaveNoSpace()
    ensures ' ' !in Host && ' ' !in Greeting && ' ' !in Closing
  {
  }

  /** The closing sentence contains neither `&` nor `#`. */
  lemma ClosingHasNoDelimiter()
    ensures '&' !in Closing && '#' !in Closing
  {
  }

  /** The link sent to the customer: host, normalised phone, greeting,
      escaped name and the fixed closing sentence. */
  function Link(tel: string, name: string): (r: string)
    ensures Host + CountryCode <= r
    ensures ' ' !in r
  {
    var phone, encoded := NormalisePhone(tel), EncodeName(name);
    FixedPartsHaveNoSpace();
    Lacks(Host, phone, ' ');
    Lacks(Host + phone, Greeting, ' ');
    Lacks(Host + phone + Greeting, encoded, ' ');
    Lacks(Host + phone + Greeting + encoded, Closing, ' ');
    Host + phone + Greeting + encoded + Closing
  }

  /** What a link names: the phone it opens a chat with and the customer. */
  datatype Recipient = Recipient(phone: string, name: string)

  /** A link cut at its query: the path after the host, and the query from
      its `?` on. */
  datatype Parts = Parts(phone: string, query: string)

  /** Form decoding of a query value as far as the link builder's output
      needs it: each `%20`, scanned left to right, and each `+` become a
      space. */
  function DecodeName(s: string): (r: string)
    ensures |r| <= |s|
  {
    if |s| >= 3 && s[..3] == "%20" then " " + DecodeName(s[3..])
    else if s == [] then []
    else if s[0] == '+' then " " + DecodeName(s[1..])
    else [s[0]] + DecodeName(s[1..])
  }

  /** Position of the first `c` in `s`, if any. */
  function IndexOf(s: string, c: char): (r: Option<nat>)
    ensures r.None? <==> c !in s
    ensures r.Some? ==> r.value < |s| && s[r.value] == c && c !in s[..r.value]
  {
    if s == [] then None
    else if s[0] == c then Some(0)
    else match IndexOf(s[1..], c)
      case None => None
      case Some(i) =>
        assert s[..i + 1] == [s[0]] + s[1..][..i];
        Some(i + 1)
  }

  /** A query value ends at the `&` that starts the next parameter or at the
      `#` that starts the fragment, whichever comes first. */
  function ValueEnd(s: string): (r: string)
    ensures r <= s
    ensures '&' !in r && '#' !in r
    ensures |r| < |s| ==> s[|r|] == '&' || s[|r|] == '#'
    ensures '&' !in s && '#' !in s ==> r == s
  {
    if s == [] || s[0] == '&' || s[0] == '#' then []
    else [s[0]] + ValueEnd(s[1..])
  }

  /** Cuts a link as a URL reader does: the phone is the path from the host
      to the first `?`, and there is no query when a `#` comes first. */
  function SplitQuery(link: string): (r: Option<Parts>)
    ensures r.Some? ==> Host <= link && '?' !in r.value.phone && '#' !in r.value.phone
    ensures r.Some? ==> r.value.query != [] && r.value.query[0] == '?'
  {
    if !(Host <= link) then None
    else
      var rest := link[|Host|..];
      match IndexOf(rest, '?')
      case None => None
      case Some(i) =>
        if '#' in rest[..i] then None
        else Some(Parts(rest[..i], rest[i..]))
  }

  /** The whole message a recipient of the link sees: the decoded `text`
      value, up to the next `&` or `#`. */
  function TextValue(link: string): (r: Option<string>)
    ensures r.Some? ==> Host <= link
  {
    match SplitQuery(link)
    case None => None
    case Some(parts) =>
      if TextKey <= parts.query then Some(DecodeName(ValueEnd(parts.query[|TextKey|..])))
      else None
  }

  /** Takes a link apart: the phone, and the name in the `text` value
      between the greeting and the closing sentence. */
  function SplitLink(link: string): (r: Option<Recipient>)
    ensures r.Some? ==> Host <= link && '?' !in r.value.phone && '#' !in r.value.phone
  {
    match SplitQuery(link)
    case None => None
    case Some(parts) =>
      match ReadMessage(parts.query)
      case None => None
      case Some(name) => Some(Recipient(parts.phone, name))
  }

  /** The name in the message text: the `text` value, up to the next `&` or
      `#`, must run from the greeting to the closing sentence. */
  function ReadMessage(text: string): (r: Option<string>)
    ensures r.Some? ==> Greeting <= text
  {
    if !(Greeting <= text) then None
    else ReadName(ValueEnd(text[|Greeting|..]))
  }

  /** The name in what follows the greeting: the value must end with the
      closing sentence, and what comes before it is decoded. */
  function ReadName(body: string): (r: Option<string>)
    ensures r.Some? ==> |r.value| <= |body| - |Closing|
  {
    if |body| < |Closing| || body[|body| - |Closing|..] != Closing then None
    else Some(DecodeName(body[..|body| - |Closing|]))
  }

  /** An escaped space at the front decodes to a space. */
  lemma DecodeEscaped(rest: string)
    ensures DecodeName("%20" + rest) == " " + DecodeName(rest)
  {
    var e := "%20" + rest;
    assert e[..3] == "%20" && e[3..] == rest;
  }

  /** Any character at the front other than `%` and `+` is copied. */
  lemma DecodePlain(x: char, rest: string)
    requires x != '%' && x != '+'
    ensures DecodeName([x] + rest) == [x] + DecodeName(rest)
  {
    var e := [x] + rest;
    assert e[0] == x && e[1..] == rest;
    assert |e| >= 3 ==> e[..3] != "%20";
  }

  /** Text without `%` and `+` at the front is copied as it is. */
  lemma {:induction false} DecodeVerbatim(plain: string, rest: string)
    requires '%' !in plain && '+' !in plain
    ensures DecodeName(plain + rest) == plain + DecodeName(rest)
  {
    if plain == [] {
      assert plain + rest == rest;
    } else {
      var head, tail := [plain[0]], plain[1..];
      assert plain == head + tail;
      Assoc(head, tail, rest);
      Assoc(head, tail, DecodeName(rest));
      DecodePlain(plain[0], tail + rest);
      DecodeVerbatim(tail, rest);
    }
  }

  /** Escaping a name without `%` or `+` can be undone. */
  lemma {:induction false} DecodeEncodeName(name: string)
    requires '%' !in name && '+' !in name
    ensures DecodeName(EncodeName(name)) == name
  {
    if name != [] {
      var rest := EncodeName(name[1..]);
      DecodeEncodeName(name[1..]);
      assert name == [name[0]] + name[1..];
      if name[0] == ' ' {
        assert EncodeName(name) == "%20" + rest;
        DecodeEscaped(rest);
      } else {
        assert EncodeName(name) == [name[0]] + rest;
        DecodePlain(name[0], rest);
      }
    }
  }

  /** Whatever follows an `&` is not part of the value. */
  lemma {:induction false} ValueEndCut(x: string, y: string)
    ensures ValueEnd(x + "&" + y) == ValueEnd(x)
  {
    var s := x + "&" + y;
    if x == [] {
      assert s[0] == '&';
    } else {
      assert s[0] == x[0];
      assert s[1..] == x[1..] + "&" + y;
      if x[0] != '&' && x[0] != '#' {
        ValueEndCut(x[1..], y);
      }
    }
  }

  /** The message text gives back the name it was built around. */
  lemma ReadMessageOf(encoded: string)
    requires '&' !in encoded && '#' !in encoded
    ensures ReadMessage(Greeting + encoded + Closing) == Some(DecodeName(encoded))
  {
    var body := encoded + Closing;
    ClosingHasNoDelimiter();
    Lacks(encoded, Closing, '&');
    Lacks(encoded, Closing, '#');
    Assoc(Greeting, encoded, Closing);
    Parted(Greeting, body);
    Parted(encoded, Closing);
  }

  /** Behind a phone with no `?` and no `#`, the query is all the rest. */
  lemma SplitAt(phone: string, text: string)
    requires '?' !in phone && '#' !in phone
    requires text != [] && text[0] == '?'
    ensures SplitQuery(Host + phone + text) == Some(Parts(phone, text))
  {
    Assoc(Host, phone, text);
    Parted(Host, phone + text);
    FirstMark(phone, text, '?');
  }

  /** Behind the host and the phone, the link is the message text. */
  lemma Assembled(phone: string, encoded: string)
    ensures Host + phone + Greeting + encoded + Closing == Host + phone + (Greeting + encoded + Closing)
    ensures (Greeting + encoded + Closing)[0] == '?'
  {
    Assoc(Host + phone, Greeting, encoded);
    Assoc(Host + phone, Greeting + encoded, Closing);
  }

  /** The reader finds each piece where the link builder put it. */
  lemma SplitAssembled(phone: string, encoded: string)
    requires '?' !in phone && '#' !in phone
    requires '&' !in encoded && '#' !in encoded
    ensures SplitLink(Host + phone + Greeting + encoded + Closing)
         == Some(Recipient(phone, DecodeName(encoded)))
  {
    Assembled(phone, encoded);
    SplitAt(phone, Greeting + encoded + Closing);
    ReadMessageOf(encoded);
  }

  /** The link opens a chat with the normalised phone and greets the customer
      by the name as typed, provided the phone has no `?` or `#` and the name
      none of `%`, `+`, `&` and `#`, which a URL reader would decode or
      treat as delimiters. */
  lemma LinkRoundTrip(tel: string, name: string)
    requires '?' !in tel && '#' !in tel
    requires '%' !in name && '+' !in name && '&' !in name && '#' !in name
    ensures SplitLink(Link(tel, name)) == Some(Recipient(NormalisePhone(tel), name))
  {
    NormalisePhoneAdds(tel, '?');
    NormalisePhoneAdds(tel, '#');
    ReplaceCharAdds(name, ' ', "%20", '&');
    ReplaceCharAdds(name, ' ', "%20", '#');
    SplitAssembled(NormalisePhone(tel), EncodeName(name));
    DecodeEncodeName(name);
  }

  /** The salutation in front of an escaped name decodes to `Sayın ` and
      the name. */
  lemma SalutationDecodes(name: string)
    requires '%' !in name && '+' !in name
    ensures DecodeName(Salutation + EncodeName(name)) == "Sayın " + name
  {
    var x := EncodeName(name);
    calc {
      DecodeName(Salutation + x);
      { assert Salutation + x == "Sayın" + ("%20" + x); }
      DecodeName("Sayın" + ("%20" + x));
      { DecodeVerbatim("Sayın", "%20" + x); }
      "Sayın" + DecodeName("%20" + x);
      { DecodeEscaped(x); DecodeEncodeName(name); }
      "Sayın" + (" " + name);
    }
  }

  /** The `text` value of a message text whose escaped name holds an `&`
      ends at that `&`: it is the salutation and the part of the name
      before it. */
  lemma GreetingCut(before: string, after: string)
    requires '%' !in before && '+' !in before && '&' !in before && '#' !in before
    ensures var text := Greeting + EncodeName(before + "&" + after) + Closing;
      && TextKey <= text
      && DecodeName(ValueEnd(text[|TextKey|..])) == "Sayın " + before
  {
    var x, y := EncodeName(before), EncodeName(after);
    ReplaceCharAt(before, '&', after, ' ', "%20");
    ReplaceCharAdds(before, ' ', "%20", '&');
    ReplaceCharAdds(before, ' ', "%20", '#');
    assert '&' !in Salutation + x && '#' !in Salutation + x;
    CutAfterKey(TextKey, Salutation, x, y, Closing);
    SalutationDecodes(before);
  }

  /** Behind the key, the value of `key + salute + (x + "&" + y) + close`
      ends at the `&`, when `salute + x` has no `&` or `#`. */
  lemma CutAfterKey(key: string, salute: string, x: string, y: string, close: string)
    requires '&' !in salute + x && '#' !in salute + x
    ensures var text := key + salute + (x + "&" + y) + close;
      && key <= text
      && ValueEnd(text[|key|..]) == salute + x
  {
    var amp: string := "&";
    var text := key + salute + (x + amp + y) + close;
    assert text == key + ((salute + x) + amp + (y + close));
    Parted(key, (salute + x) + amp + (y + close));
    ValueEndCut(salute + x, y + close);
  }

  /** An `&` in the name is copied raw and ends the `text` value, so a
      recipient of the link for `Ali & Veli` reads only `Sayın Ali `: the
      rest of the name and the closing sentence are lost. */
  lemma AmpersandCutsGreeting(tel: string, before: string, after: string)
    requires '?' !in tel && '#' !in tel
    requires '%' !in before && '+' !in before && '&' !in before && '#' !in before
    ensures TextValue(Link(tel, before + "&" + after)) == Some("Sayın " + before)
  {
    var phone, encoded := NormalisePhone(tel), EncodeName(before + "&" + after);
    NormalisePhoneAdds(tel, '?');
    NormalisePhoneAdds(tel, '#');
    Assembled(phone, encoded);
    SplitAt(phone, Greeting + encoded + Closing);
    GreetingCut(before, after);
  }

  /** A space and the text `%20` escape to the same thing. */
  lemma EncodeNameCollides(before: string, after: string)
    ensures EncodeName(before + " " + after) == EncodeName(before + "%20" + after)
  {
    var space, escape: string := " ", "%20";
    ReplaceCharSplice(before, space, after, ' ', escape);
    ReplaceCharSplice(before, escape, after, ' ', escape);
    assert ReplaceChar(space, ' ', escape) == escape;
    assert ' ' !in escape;
  }

  /** The escaping is not reversible once the name itself contains `%20`:
      a name with a space and the same name with `%20` in its place give the
      same link. */
  lemma PercentNameCollides(tel: string, before: string, after: string)
    ensures Link(tel, before + " " + after) == Link(tel, before + "%20" + after)
  {
    EncodeNameCollides(before, after);
  }

  /** Joining two strings without `c` gives one without `c`. */
  lemma Lacks(a: string, b: string, c: char)
    requires c !in a && c !in b
    ensures c !in a + b
  {
  }

  /** Concatenation regrouped. */
  lemma Assoc(a: string, b: string, c: string)
    ensures a + b + c == a + (b + c)
  {
  }

  /** Where the two pieces of `a + b` sit. */
  lemma Parted(a: string, b: string)
    ensures a <= a + b && (a + b)[|a|..] == b && (a + b)[..|a|] == a
  {
  }

  /** The first `m` of `before + after` is the first of `after` when `before`
      has none. */
  lemma FirstMark(before: string, after: string, m: char)
    requires m !in before && after != [] && after[0] == m
    ensures IndexOf(before + after, m) == Some(|before|)
    ensures (before + after)[..|before|] == before && (before + after)[|before|..] == after
  {
    var s := before + after;
    assert s[|before|] == m;
    assert s[..|before|] == before;
  }
}
