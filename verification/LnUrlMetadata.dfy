/** LNURL offer metadata as the [type, value] array of LUD-06: the printer and the parser. */
module LnUrlMetadata {
  import opened Types
  import Base64

  datatype Image = Png(png: Bytes) | Jpeg(jpeg: Bytes)

  datatype Identifier<E> = TextId(address: E) | EmailId(address: E)

  datatype Metadata<E> = Metadata(
    text: string,
    longText: Option<string>,
    image: Option<Image>,
    identifier: Option<Identifier<E>>)

  type Entry = (string, string)

  /** The e-mail grammar: how an address is read, and the address part that is printed. */
  datatype Emails<!E> = Emails(parse: string -> Option<E>, email: E -> string)

  /** An address with nothing but the printed part to it. */
  predicate Bare<E(==)>(emails: Emails<E>, e: E) {
    emails.parse(emails.email(e)) == Some(e)
  }

  const TEXT := "text/plain"
  const TEXT_LONG := "text/long-desc"
  const PNG_IMAGE := "image/png;base64"
  const JPEG_IMAGE := "image/jpeg;base64"
  const TEXT_IDENTIFIER := "text/identifier"
  const TEXT_EMAIL := "text/email"

  datatype ParseError = InvalidPng | InvalidJpeg | InvalidEmail | MissingText

  datatype Slot = TextSlot | LongTextSlot | ImageSlot | IdentifierSlot

  datatype Fact<E> = Words(words: string) | Picture(image: Image) | Who(identifier: Identifier<E>)

  /** What one entry says: nothing known, a value for one slot, or something unreadable. */
  datatype Reading<E> = Unknown | Sets(slot: Slot, fact: Fact<E>) | Bad(error: ParseError)

  function Read<E>(emails: Emails<E>, e: Entry): Reading<E> {
    if e.0 == TEXT then Sets(TextSlot, Words(e.1))
    else if e.0 == TEXT_LONG then Sets(LongTextSlot, Words(e.1))
    else if e.0 == PNG_IMAGE then
      (match Base64.Decode(e.1) case None => Bad(InvalidPng) case Some(b) => Sets(ImageSlot, Picture(Png(b))))
    else if e.0 == JPEG_IMAGE then
      (match Base64.Decode(e.1) case None => Bad(InvalidJpeg) case Some(b) => Sets(ImageSlot, Picture(Jpeg(b))))
    else if e.0 == TEXT_IDENTIFIER then
      (match emails.parse(e.1) case None => Bad(InvalidEmail) case Some(a) => Sets(IdentifierSlot, Who(TextId(a))))
    else if e.0 == TEXT_EMAIL then
      (match emails.parse(e.1) case None => Bad(InvalidEmail) case Some(a) => Sets(IdentifierSlot, Who(EmailId(a))))
    else Unknown
  }

  // ---- Reference definition of parsing ----

  /** The first unreadable entry decides the error. */
  function FirstBad<E>(emails: Emails<E>, l: seq<Entry>): Option<ParseError> {
    if l == [] then None
    else
      var before := FirstBad(emails, l[..|l| - 1]);
      var r := Read(emails, l[|l| - 1]);
      if before.Some? then before else if r.Bad? then Some(r.error) else None
  }

  /** The last entry for a slot decides its value. */
  function LastOf<E>(emails: Emails<E>, l: seq<Entry>, slot: Slot): Option<Fact<E>> {
    if l == [] then None
    else
      var r := Read(emails, l[|l| - 1]);
      if r.Sets? && r.slot == slot then Some(r.fact) else LastOf(emails, l[..|l| - 1], slot)
  }

  function WordsOf<E>(f: Option<Fact<E>>): Option<string> {
    if f.Some? && f.value.Words? then Some(f.value.words) else None
  }

  function PictureOf<E>(f: Option<Fact<E>>): Option<Image> {
    if f.Some? && f.value.Picture? then Some(f.value.image) else None
  }

  function WhoOf<E>(f: Option<Fact<E>>): Option<Identifier<E>> {
    if f.Some? && f.value.Who? then Some(f.value.identifier) else None
  }

  function Parse<E>(emails: Emails<E>, l: seq<Entry>): Result<Metadata<E>, ParseError> {
    var bad, text := FirstBad(emails, l), WordsOf(LastOf(emails, l, TextSlot));
    if bad.Some? then Err(bad.value)
    else if text.None? then Err(MissingText)
    else Ok(Metadata(
      text.value,
      WordsOf(LastOf(emails, l, LongTextSlot)),
      PictureOf(LastOf(emails, l, ImageSlot)),
      WhoOf(LastOf(emails, l, IdentifierSlot))))
  }

  function PrintTexts<E>(m: Metadata<E>): seq<Entry> {
    [(TEXT, m.text)] + if m.longText.None? then [] else [(TEXT_LONG, m.longText.value)]
  }

  function PrintImage(image: Option<Image>): seq<Entry> {
    match image
    case None => []
    case Some(Png(b)) => [(PNG_IMAGE, Base64.Encode(b))]
    case Some(Jpeg(b)) => [(JPEG_IMAGE, Base64.Encode(b))]
  }

  function PrintIdentifier<E>(emails: Emails<E>, identifier: Option<Identifier<E>>): seq<Entry> {
    match identifier
    case None => []
    case Some(TextId(a)) => [(TEXT_IDENTIFIER, emails.email(a))]
    case Some(EmailId(a)) => [(TEXT_EMAIL, emails.email(a))]
  }

  function Print<E>(emails: Emails<E>, m: Metadata<E>): seq<Entry> {
    PrintTexts(m) + PrintImage(m.image) + PrintIdentifier(emails, m.identifier)
  }

  // ---- The program ----

  /** The length announced to the serializer is the number of elements then written. */
  method Serialize<E>(emails: Emails<E>, m: Metadata<E>) returns (len: nat, elements: seq<Entry>)
    ensures elements == Print(emails, m) && len == |elements|
  {
    len := 1;
    if m.longText.Some? {
      len := len + 1;
    }
    if m.image.Some? {
      len := len + 1;
    }
    if m.identifier.Some? {
      len := len + 1;
    }
    elements := [(TEXT, m.text)];
    if m.longText.Some? {
      elements := elements + [(TEXT_LONG, m.longText.value)];
    }
    match m.image {
      case None =>
      case Some(Png(b)) => elements := elements + [(PNG_IMAGE, Base64.Encode(b))];
      case Some(Jpeg(b)) => elements := elements + [(JPEG_IMAGE, Base64.Encode(b))];
    }
    match m.identifier {
      case None =>
      case Some(TextId(a)) => elements := elements + [(TEXT_IDENTIFIER, emails.email(a))];
      case Some(EmailId(a)) => elements := elements + [(TEXT_EMAIL, emails.email(a))];
    }
  }

  /** What the variables hold after the entries of `l`, none of them unreadable. */
  ghost predicate SoFar<E>(emails: Emails<E>, l: seq<Entry>, text: Option<string>, longText: Option<string>,
                           image: Option<Image>, identifier: Option<Identifier<E>>)
  {
    && FirstBad(emails, l).None?
    && text == WordsOf(LastOf(emails, l, TextSlot))
    && longText == WordsOf(LastOf(emails, l, LongTextSlot))
    && image == PictureOf(LastOf(emails, l, ImageSlot))
    && identifier == WhoOf(LastOf(emails, l, IdentifierSlot))
  }

  lemma OneMoreEntry<E>(emails: Emails<E>, l: seq<Entry>, i: nat, text: Option<string>, longText: Option<string>,
                        image: Option<Image>, identifier: Option<Identifier<E>>)
    requires i < |l| && SoFar(emails, l[..i], text, longText, image, identifier)
    ensures Read(emails, l[i]).Bad? ==> Parse(emails, l) == Err(Read(emails, l[i]).error)
    ensures !Read(emails, l[i]).Bad? ==>
      var r := Read(emails, l[i]);
      SoFar(emails, l[..i + 1],
        if Says(r, TextSlot).Some? then WordsOf(Says(r, TextSlot)) else text,
        if Says(r, LongTextSlot).Some? then WordsOf(Says(r, LongTextSlot)) else longText,
        if Says(r, ImageSlot).Some? then PictureOf(Says(r, ImageSlot)) else image,
        if Says(r, IdentifierSlot).Some? then WhoOf(Says(r, IdentifierSlot)) else identifier)
  {
    Append(emails, l[..i], l[i]);
    assert l[..i + 1] == l[..i] + [l[i]];
    if Read(emails, l[i]).Bad? {
      FirstBadStays(emails, l[..i + 1], l[i + 1..]);
      assert l == l[..i + 1] + l[i + 1..];
    }
  }

  method Deserialize<E>(emails: Emails<E>, l: seq<Entry>) returns (r: Result<Metadata<E>, ParseError>)
    ensures r == Parse(emails, l)
  {
    var text: Option<string> := None;
    var longText: Option<string> := None;
    var image: Option<Image> := None;
    var identifier: Option<Identifier<E>> := None;
    var i := 0;
    while i < |l|
      invariant 0 <= i <= |l|
      invariant SoFar(emails, l[..i], text, longText, image, identifier)
    {
      var entry := l[i];
      OneMoreEntry(emails, l, i, text, longText, image, identifier);
      if entry.0 == TEXT {
        text := Some(entry.1);
      } else if entry.0 == TEXT_LONG {
        longText := Some(entry.1);
      } else if entry.0 == PNG_IMAGE {
        var decoded := Base64.Decode(entry.1);
        if decoded.None? {
          return Err(InvalidPng);
        }
        image := Some(Png(decoded.value));
      } else if entry.0 == JPEG_IMAGE {
        var decoded := Base64.Decode(entry.1);
        if decoded.None? {
          return Err(InvalidJpeg);
        }
        image := Some(Jpeg(decoded.value));
      } else if entry.0 == TEXT_IDENTIFIER {
        var email := emails.parse(entry.1);
        if email.None? {
          return Err(InvalidEmail);
        }
        identifier := Some(TextId(email.value));
      } else if entry.0 == TEXT_EMAIL {
        var email := emails.parse(entry.1);
        if email.None? {
          return Err(InvalidEmail);
        }
        identifier := Some(EmailId(email.value));
      }
      i := i + 1;
    }
    assert l[..i] == l;
    if text.None? {
      return Err(MissingText);
    }
    r := Ok(Metadata(text.value, longText, image, identifier));
  }

  lemma {:induction false} FirstBadStays<E>(emails: Emails<E>, l: seq<Entry>, more: seq<Entry>)
    ensures FirstBad(emails, l).Some? ==> FirstBad(emails, l + more) == FirstBad(emails, l)
    ensures FirstBad(emails, l).None? ==> FirstBad(emails, l + more) == FirstBad(emails, more)
  {
    if more == [] {
      assert l + more == l;
    } else {
      FirstBadStays(emails, l, more[..|more| - 1]);
      assert (l + more)[..|l + more| - 1] == l + more[..|more| - 1];
    }
  }

  lemma {:induction false} LastOfConcat<E>(emails: Emails<E>, l: seq<Entry>, more: seq<Entry>, slot: Slot)
    ensures LastOf(emails, l + more, slot) ==
      if LastOf(emails, more, slot).Some? then LastOf(emails, more, slot) else LastOf(emails, l, slot)
  {
    if more == [] {
      assert l + more == l;
    } else {
      LastOfConcat(emails, l, more[..|more| - 1], slot);
      assert (l + more)[..|l + more| - 1] == l + more[..|more| - 1];
    }
  }

  function Says<E>(r: Reading<E>, slot: Slot): Option<Fact<E>> {
    if r.Sets? && r.slot == slot then Some(r.fact) else None
  }

  lemma One<E>(emails: Emails<E>, e: Entry)
    ensures FirstBad(emails, [e]) == if Read(emails, e).Bad? then Some(Read(emails, e).error) else None
    ensures forall slot :: LastOf(emails, [e], slot) == Says(Read(emails, e), slot)
  {
    assert [e][..0] == [];
  }

  /** Taking out an entry changes nothing if it is of unknown type, or readable and followed by another for its slot. */
  lemma DropRedundant<E>(emails: Emails<E>, a: seq<Entry>, e: Entry, b: seq<Entry>)
    requires var r := Read(emails, e); r.Unknown? || (r.Sets? && LastOf(emails, b, r.slot).Some?)
    ensures Parse(emails, a + [e] + b) == Parse(emails, a + b)
  {
    One(emails, e);
    FirstBadStays(emails, a + [e], b);
    FirstBadStays(emails, a, [e]);
    FirstBadStays(emails, a, b);
    forall slot ensures LastOf(emails, a + [e] + b, slot) == LastOf(emails, a + b, slot) {
      LastOfConcat(emails, a + [e], b, slot);
      LastOfConcat(emails, a, [e], slot);
      LastOfConcat(emails, a, b, slot);
    }
  }

  /** One unreadable entry spoils the whole array, even where a later entry would have replaced it. */
  lemma BadSpoils<E>(emails: Emails<E>, a: seq<Entry>, e: Entry, b: seq<Entry>)
    requires Read(emails, e).Bad?
    ensures Parse(emails, a + [e] + b).Err? && Parse(emails, a + [e] + b).error != MissingText
    ensures FirstBad(emails, a).None? ==> Parse(emails, a + [e] + b).error == Read(emails, e).error
  {
    One(emails, e);
    FirstBadStays(emails, a + [e], b);
    FirstBadStays(emails, a, [e]);
    BadIsNotMissing(emails, a + [e]);
  }

  lemma {:induction false} BadIsNotMissing<E>(emails: Emails<E>, l: seq<Entry>)
    ensures FirstBad(emails, l) != Some(MissingText)
  {
    if l != [] {
      BadIsNotMissing(emails, l[..|l| - 1]);
    }
  }

  lemma Append<E>(emails: Emails<E>, l: seq<Entry>, e: Entry)
    ensures FirstBad(emails, l + [e]) ==
      if FirstBad(emails, l).Some? then FirstBad(emails, l)
      else if Read(emails, e).Bad? then Some(Read(emails, e).error)
      else None
    ensures forall slot :: LastOf(emails, l + [e], slot) == After(LastOf(emails, l, slot), Read(emails, e), slot)
  {
    assert (l + [e])[..|l|] == l;
  }

  function After<E>(before: Option<Fact<E>>, r: Reading<E>, slot: Slot): Option<Fact<E>> {
    if Says(r, slot).Some? then Says(r, slot) else before
  }

  lemma TextsReadBack<E>(emails: Emails<E>, m: Metadata<E>)
    ensures var l := PrintTexts(m);
      && FirstBad(emails, l).None?
      && WordsOf(LastOf(emails, l, TextSlot)) == Some(m.text)
      && WordsOf(LastOf(emails, l, LongTextSlot)) == m.longText
      && LastOf(emails, l, ImageSlot).None? && LastOf(emails, l, IdentifierSlot).None?
  {
    One(emails, (TEXT, m.text));
    if m.longText.None? {
      assert PrintTexts(m) == [(TEXT, m.text)];
    } else {
      Append(emails, [(TEXT, m.text)], (TEXT_LONG, m.longText.value));
    }
  }

  lemma ImageReadsBack<E>(emails: Emails<E>, l: seq<Entry>, image: Option<Image>)
    requires FirstBad(emails, l).None? && LastOf(emails, l, ImageSlot).None?
    ensures var r := l + PrintImage(image);
      && FirstBad(emails, r).None?
      && PictureOf(LastOf(emails, r, ImageSlot)) == image
      && forall slot | slot != ImageSlot :: LastOf(emails, r, slot) == LastOf(emails, l, slot)
  {
    match image
    case None => assert l + PrintImage(image) == l;
    case Some(Png(b)) =>
      Base64.EncodeDecode(b);
      Append(emails, l, (PNG_IMAGE, Base64.Encode(b)));
    case Some(Jpeg(b)) =>
      Base64.EncodeDecode(b);
      Append(emails, l, (JPEG_IMAGE, Base64.Encode(b)));
  }

  lemma IdentifierReadsBack<E>(emails: Emails<E>, l: seq<Entry>, identifier: Option<Identifier<E>>)
    requires FirstBad(emails, l).None? && LastOf(emails, l, IdentifierSlot).None?
    ensures var r := l + PrintIdentifier(emails, identifier);
      && (FirstBad(emails, r).None? && WhoOf(LastOf(emails, r, IdentifierSlot)) == identifier
          <==> identifier.None? || Bare(emails, identifier.value.address))
      && forall slot | slot != IdentifierSlot :: LastOf(emails, r, slot) == LastOf(emails, l, slot)
  {
    match identifier
    case None => assert l + PrintIdentifier(emails, identifier) == l;
    case Some(TextId(a)) => Append(emails, l, (TEXT_IDENTIFIER, emails.email(a)));
    case Some(EmailId(a)) => Append(emails, l, (TEXT_EMAIL, emails.email(a)));
  }

  /** What is printed is read back as it was, exactly when the identifier, if any, is a bare address. */
  lemma RoundTrip<E>(emails: Emails<E>, m: Metadata<E>)
    ensures Parse(emails, Print(emails, m)) == Ok(m) <==> m.identifier.None? || Bare(emails, m.identifier.value.address)
  {
    TextsReadBack(emails, m);
    ImageReadsBack(emails, PrintTexts(m), m.image);
    IdentifierReadsBack(emails, PrintTexts(m) + PrintImage(m.image), m.identifier);
  }

  /** What each type of entry says, by the names of LUD-06. */
  lemma ReadsTypes<E>(emails: Emails<E>, x: string)
    ensures Read(emails, ("text/plain", x)) == Sets(TextSlot, Words(x))
    ensures Read(emails, ("text/long-desc", x)) == Sets(LongTextSlot, Words(x))
    ensures Read(emails, ("image/png;base64", x)) ==
      if Base64.Decode(x).None? then Bad(InvalidPng) else Sets(ImageSlot, Picture(Png(Base64.Decode(x).value)))
    ensures Read(emails, ("image/jpeg;base64", x)) ==
      if Base64.Decode(x).None? then Bad(InvalidJpeg) else Sets(ImageSlot, Picture(Jpeg(Base64.Decode(x).value)))
    ensures Read(emails, ("text/identifier", x)) ==
      if emails.parse(x).None? then Bad(InvalidEmail) else Sets(IdentifierSlot, Who(TextId(emails.parse(x).value)))
    ensures Read(emails, ("text/email", x)) ==
      if emails.parse(x).None? then Bad(InvalidEmail) else Sets(IdentifierSlot, Who(EmailId(emails.parse(x).value)))
  {
    assert |"text/plain"| == 10 && |"text/long-desc"| == 14 && |"image/png;base64"| == 16;
    assert |"image/jpeg;base64"| == 17 && |"text/identifier"| == 15;
  }

  /** Which entries are printed, by the same names; the text comes first. */
  lemma PrintsTypes<E>(emails: Emails<E>, m: Metadata<E>, e: Entry)
    ensures Print(emails, m)[0] == ("text/plain", m.text)
    ensures e in Print(emails, m) <==>
      || e == ("text/plain", m.text)
      || (m.longText.Some? && e == ("text/long-desc", m.longText.value))
      || (m.image.Some? && m.image.value.Png? && e == ("image/png;base64", Base64.Encode(m.image.value.png)))
      || (m.image.Some? && m.image.value.Jpeg? && e == ("image/jpeg;base64", Base64.Encode(m.image.value.jpeg)))
      || (m.identifier.Some? && m.identifier.value.TextId?
            && e == ("text/identifier", emails.email(m.identifier.value.address)))
      || (m.identifier.Some? && m.identifier.value.EmailId?
            && e == ("text/email", emails.email(m.identifier.value.address)))
  {
    var texts, image, identifier := PrintTexts(m), PrintImage(m.image), PrintIdentifier(emails, m.identifier);
    assert e in Print(emails, m) <==> e in texts || e in image || e in identifier;
  }
}
