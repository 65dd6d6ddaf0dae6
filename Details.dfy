/**
 * One inmate's detail page (`scrape_inmate_details`): the demographic field
 * list and, for every booking section in document order, the booking
 * dictionary (header number, field list, charges).
 */
module Details {
  import opened PyStr
  import opened Fields
  import opened Charges
  import opened ListCrawl

  /** Key under which the `h3 span` header text is stored. */
  const BookingNumberKey: string := "booking_number"

  /** Key that the charge list takes over at the end of each section. */
  const ChargesKey: string := "charges"

  /** One `#BookingHistory .Booking` section: the `h3 span` header text if
      present, its field list, and the cells of each charge-table row. */
  datatype BookingSection = BookingSection(
    header: Option<string>,
    items: seq<FieldItem>,
    chargeRows: seq<seq<string>>)

  /** A detail page that loaded: the demographic field list and the booking
      sections. */
  datatype DetailPage = DetailPage(demographics: seq<FieldItem>, sections: seq<BookingSection>)

  /** A booking dictionary: its text entries, and the list stored under
      "charges" (which therefore is never a text entry). */
  datatype Booking = Booking(fields: map<string, string>, charges: seq<Charge>)

  /** The list entry merged with what the detail page gave. */
  datatype DetailedInmate = DetailedInmate(
    entry: SummaryEntry,
    demographics: map<string, string>,
    bookings: seq<Booking>)

  /** The booking dictionary before its field list is read. */
  function HeaderFields(header: Option<string>): map<string, string> {
    if header.Some? then map[BookingNumberKey := header.value] else map[]
  }

  /** The booking dictionary a section produces. */
  function BookingOf(sec: BookingSection): (b: Booking)
    ensures ChargesKey !in b.fields
    ensures b.charges == ChargesOf(sec.chargeRows)
  {
    Booking(FieldsOf(HeaderFields(sec.header), sec.items) - {ChargesKey}, ChargesOf(sec.chargeRows))
  }

  /** The loop body for one booking section. */
  method AssembleBooking(sec: BookingSection) returns (b: Booking)
    ensures b == BookingOf(sec)
  {
    var data: map<string, string> := map[];
    if sec.header.Some? {
      data := data[BookingNumberKey := sec.header.value];
    }
    data := CollectFields(sec.items, data);
    var charges := ExtractCharges(sec.chargeRows);
    b := Booking(data - {ChargesKey}, charges);
  }

  /** The bookings of the given sections, in document order. */
  function BookingsOf(sections: seq<BookingSection>): (bs: seq<Booking>)
    ensures |bs| == |sections|
    ensures forall i :: 0 <= i < |bs| ==> bs[i] == BookingOf(sections[i])
  {
    if sections == [] then []
    else BookingsOf(sections[..|sections| - 1]) + [BookingOf(sections[|sections| - 1])]
  }

  /** What the detail step returns: nothing when the page failed to load
      (navigation or the wait for `#Inmate_Detail` raised), otherwise the
      list entry unchanged together with the demographics and one booking
      per section, in order. */
  function DetailsOf(entry: SummaryEntry, page: Option<DetailPage>): (r: Option<DetailedInmate>)
    ensures r.Some? <==> page.Some?
    ensures r.Some? ==> r.value.entry == entry && |r.value.bookings| == |page.value.sections|
    ensures r.Some? ==> r.value.demographics == FieldsOf(map[], page.value.demographics)
    ensures r.Some? ==> forall i :: 0 <= i < |r.value.bookings| ==>
      r.value.bookings[i] == BookingOf(page.value.sections[i])
  {
    match page
    case None => None
    case Some(p) => Some(DetailedInmate(entry, FieldsOf(map[], p.demographics), BookingsOf(p.sections)))
  }

  /** The detail scrape of one inmate. */
  method ScrapeInmateDetails(entry: SummaryEntry, page: Option<DetailPage>) returns (r: Option<DetailedInmate>)
    ensures r == DetailsOf(entry, page)
  {
    if page.None? {
      return None;
    }
    var p := page.value;
    var demographics := CollectFields(p.demographics, map[]);
    var bookings: seq<Booking> := [];
    for i := 0 to |p.sections|
      invariant bookings == BookingsOf(p.sections[..i])
    {
      var booking := AssembleBooking(p.sections[i]);
      bookings := bookings + [booking];
      assert p.sections[..i + 1][..i] == p.sections[..i];
    }
    assert p.sections[..|p.sections|] == p.sections;
    r := Some(DetailedInmate(entry, demographics, bookings));
  }

  // ---------------------------------------------------------------------
  // Properties of a booking dictionary

  /** The header number is kept when no field of the section normalises to
      "booking_number"; without a header and without such a field there is
      no booking number at all. */
  lemma BookingNumberFromHeader(sec: BookingSection)
    requires forall j :: 0 <= j < |sec.items| ==> !Provides(sec.items[j], BookingNumberKey)
    ensures BookingNumberKey in BookingOf(sec).fields <==> sec.header.Some?
    ensures sec.header.Some? ==> BookingOf(sec).fields[BookingNumberKey] == sec.header.value
  {
    FieldsOfUntouched(HeaderFields(sec.header), sec.items, BookingNumberKey);
  }

  /** Every text field of a booking holds the value of the last complete
      label/value item that provides its key; the header number, if any,
      is only a starting value. */
  lemma BookingFieldValue(sec: BookingSection, key: string, i: nat)
    requires key != ChargesKey
    requires i < |sec.items| && Provides(sec.items[i], key)
    requires forall j :: i < j < |sec.items| ==> !Provides(sec.items[j], key)
    ensures key in BookingOf(sec).fields
    ensures BookingOf(sec).fields[key] == sec.items[i].spanText.value
  {
    FieldsOfLastWins(HeaderFields(sec.header), sec.items, key, i);
  }

  /** A field whose label normalises to "booking_number" (such as "Booking
      Number") overwrites the header number: the last such field wins. */
  lemma BookingNumberOverridden(sec: BookingSection, i: nat)
    requires i < |sec.items| && Provides(sec.items[i], BookingNumberKey)
    requires forall j :: i < j < |sec.items| ==> !Provides(sec.items[j], BookingNumberKey)
    ensures BookingNumberKey in BookingOf(sec).fields
    ensures BookingOf(sec).fields[BookingNumberKey] == sec.items[i].spanText.value
  {
    assert |BookingNumberKey| != |ChargesKey|;
    BookingFieldValue(sec, BookingNumberKey, i);
  }

  /** Apart from "charges", a booking holds exactly the header number (if
      any) and the keys its complete label/value items provide. */
  lemma BookingKeys(sec: BookingSection, key: string)
    requires key != ChargesKey
    ensures key in BookingOf(sec).fields <==>
            (key == BookingNumberKey && sec.header.Some?) ||
            exists j :: 0 <= j < |sec.items| && Provides(sec.items[j], key)
  {
    FieldsOfKeys(HeaderFields(sec.header), sec.items, key);
  }
}
