# Insurance agency back office: the new-policy form handler

The application is a Streamlit page over a Google Sheets spreadsheet that an
insurance agency uses as its policy register. The one piece of logic in it
beyond widgets and spreadsheet calls is the handler behind the "new policy"
form: when the form is submitted with an empty customer name it shows a
warning and writes nothing; otherwise it appends one seven-field row to the
sheet, then normalises the typed phone number into international form and
builds a WhatsApp "click to chat" link that greets the customer by name.

This project models that handler in Dafny:

- `Strings` — the two Python string operations the handler uses, on
  `seq<char>`: `str.replace` with a one-character pattern (`ReplaceChar`) and
  `str.lstrip` with a one-character set (`TrimLeading`).
- `Phone` — the phone normaliser: remove every space; unless the result starts
  with Turkey's country code `90`, strip its leading zeros and put `90` in
  front.
- `WhatsApp` — the link `https://wa.me/<phone>?text=Sayın%20<name>,%20sigorta%20poliçeniz%20oluşturulmuştur.`,
  where only the spaces of the name become `%20`; every other character,
  including `%`, `+`, `&`, `#` and non-ASCII letters, is copied as it is.
  A reader takes such a link apart as a URL reader would: the path ends at
  the first `?` or `#`, the `text` value ends at the next `&` or `#`, and
  form decoding turns `%20` and `+` into spaces. `TextValue` is the whole
  message a recipient sees; `SplitLink` finds the phone and the name between
  the greeting and the closing sentence. The reader is not part of the
  application; it states what the link carries.
- `PolicyForm` — the policy row and the sheet as a class holding its rows as
  a sequence, with `append_row` as appending to it, and the submit branch.

## Model

| member | source | states |
|---|---|---|
| Strings.ReplaceChar | app.py:75 | `replace` with a one-character pattern: when `rep` lacks the character, the result lacks it; a string without the character is returned unchanged |
| Strings.ReplaceCharLength | app.py:75 | the result's length is the input's plus the length of `rep` minus one for each occurrence of the replaced character |
| Strings.ReplaceCharAt | app.py:75 | inside any string, an occurrence of the replaced character becomes exactly `rep` and any other character stays as it is, with the text on either side rewritten on its own |
| Strings.ReplaceCharConcat | app.py:75 | replacing distributes over concatenation, so every other character keeps its place and order |
| Strings.ReplaceCharAdds | app.py:75 | replacing introduces no character that is in neither the input nor the replacement |
| Strings.TrimLeading | app.py:77 | `lstrip` of one character: the result is a suffix of the input, everything removed is that character, and the result is empty or does not start with it |
| Strings.TrimLeadingRun | app.py:77 | any run of the character in front of a string not starting with it is removed exactly |
| Phone.Compact | app.py:75 | the number with spaces removed contains no space, is shorter by exactly the number of spaces, and is unchanged when there were none |
| Phone.NormalisePhone | app.py:75-77 | the result starts with `90` and has no space; if the compacted number starts with `90` it is returned exactly; otherwise the part after `90` is the compacted number minus a leading run of zeros only, and is empty or does not start with `0` |
| Phone.NormalisePhoneAdds | app.py:75-77 | no character appears in the result that was neither typed nor part of `90` |
| Phone.NormalisePhoneIdempotent | app.py:75-77 | normalising a normalised number returns it unchanged |
| Phone.TrunkZeroIgnored | app.py:76-77 | a number typed with one or more leading zeros normalises to `90` followed by the number without them, even when what follows the zeros is itself `90…` (so `0090532…` becomes `9090532…`); without leading zeros this holds for a number not already starting with `90` |
| Phone.CompactSpaceIgnored | app.py:75 | removing spaces gives the same string wherever a space was typed |
| Phone.SpaceIgnored | app.py:75 | a space inserted anywhere in the typed number does not change the result |
| WhatsApp.EncodeName | app.py:78 | the escaped name contains no space, is longer by two characters per space, and equals the name when it has no space |
| WhatsApp.Link | app.py:78 | the link starts with `https://wa.me/90` and contains no space |
| WhatsApp.ReadMessageOf | app.py:78 | when the escaped name has no `&` or `#`, the whole text between the greeting and the closing sentence is the `text` value, and it reads back as the decoded name |
| WhatsApp.SplitAssembled | app.py:78 | reading the assembled link back yields the phone segment and the decoded name segment, provided the phone has no `?` or `#` and the escaped name no `&` or `#` |
| WhatsApp.DecodeEncodeName | app.py:78 | escaping a name that contains no `%` and no `+` can be undone by form decoding |
| WhatsApp.LinkRoundTrip | app.py:75-78 | the link opens a chat with the normalised phone and greets the name exactly as typed, provided the phone has no `?` or `#` and the name none of `%`, `+`, `&` and `#` |
| WhatsApp.GreetingCut | app.py:78 | when the name holds an `&` and what precedes it has none of `%`, `+`, `&` and `#`, the `text` value of the message ends at that `&` and decodes to `Sayın ` followed by the name up to the `&` |
| WhatsApp.AmpersandCutsGreeting | app.py:75-78 | for a phone without `?` or `#`, the message a recipient of the link for `<before>&<after>` sees is exactly `Sayın <before>`: the rest of the name and the closing sentence are lost |
| WhatsApp.EncodeNameCollides | app.py:78 | a space and the text `%20` escape to the same thing |
| WhatsApp.PercentNameCollides | app.py:78 | a name with a space and the same name with `%20` in its place (`Ali Veli`, `Ali%20Veli`) give the same link: escaping only spaces is not reversible in general |
| PolicyForm.CoverageOf | app.py:59 | a text is read as an insurance type only if it is that type's label, one of the five options of the select box |
| PolicyForm.CoverageLabelRoundTrip | app.py:59 | each of the five types is written as its own label and read back as itself, so no two types share a label |
| PolicyForm.ToRow | app.py:70 | the row has exactly seven fields |
| PolicyForm.FromToRow | app.py:70 | the row holds name, phone, plate, type, end date, amount and notes, each in its own column in that order, and reads back as the submitted policy |
| PolicyForm.Sheet.AppendRow | app.py:71 | the sheet afterwards is the old rows followed by the new row |
| PolicyForm.Sheet.Submit | app.py:66-78 | not submitted: nothing changes; empty name: the warning and the rows unchanged; otherwise exactly the policy's row appended at the end and the WhatsApp link for the typed phone and name returned |
| PolicyForm.SubmitAppendsLast | app.py:69-71 | after a submission with a name, the sheet has one more row, the last reads back as the policy, and every earlier row is unchanged |

## Left out

- Google Sheets authentication, the connection and opening the sheet (app.py:11-25): library calls and network I/O; only the effect of `append_row` on the sheet's rows is modelled. A failing `append_row` is not modelled: a failed write raises at app.py:71, before the success message and the link (app.py:72-79), whereas `Sheet.Submit` assumes the write always succeeds.
- Every Streamlit widget, the page set-up, metrics, markdown links, the success and warning messages (app.py:8, 29-64, 72, 79, 83-94): user interface; the handler's result is returned as an `Outcome` instead.
- Reading all records into a DataFrame (app.py:35-36), the dashboard's total of the amount column (app.py:45) and the search filter (app.py:90): they depend on pandas semantics over untyped cells (sums that may concatenate text, regex matching with case folding).
- The end-date text `str(tarih)` is taken as given text, and the amount as the non-negative integer the number field with minimum 0 delivers; neither widget's conversion is modelled.
- The type select box's restriction to its five options is modelled by the `Coverage` datatype, not by a runtime check.
- `str.replace` and `str.lstrip` are modelled only for the one-character patterns the handler uses.
- WhatsApp.LinkRoundTrip: the link builder escapes only spaces, so a name with `&`, `#` or `+` (which form decoding reads as a space), or a phone with `#`, does not reach a URL reader as typed: the message is cut off at the `&` or `#` (`AmpersandCutsGreeting` states what remains after an `&`), or a `+` in it turns into a space. The round trip is promised only for names and phones without these characters; other percent-escapes than `%20` are not decoded.
