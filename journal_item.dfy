/** A journal entry as the application passes it around: the record of
    Models/JournalItem.cs with its two list views.  `SecondaryMoods` and
    `Tags` hold lists of strings as JSON array text; `TagList` and
    `SecondaryMoodList` read them back and their setters write them. */
module JournalItems {
  import opened Wrappers
  import opened Text
  import opened DateTimes
  import opened JsonList

  /** Every property of the C# class is a settable reference or value, so
      the string properties may hold null. */
  datatype JournalItem = JournalItem(
    Id: int,
    EntryDate: DateTime,
    Content: NullableString,
    PrimaryMood: NullableString,
    SecondaryMoods: NullableString,
    Tags: NullableString,
    CreatedAt: DateTime)

  /** `new JournalItem()`: the declared defaults, and default(DateTime) for
      the two dates. */
  function NewJournalItem(): (r: JournalItem)
    ensures r.Id == 0 && r.EntryDate == MinValue && r.CreatedAt == MinValue
    ensures r.Content == Str("") && r.PrimaryMood == Str("")
    ensures r.Tags == EncodeList(Some([])) && r.SecondaryMoods == EncodeList(Some([]))
  {
    JournalItem(0, MinValue, Str(""), Str(""), Str("[]"), Str("[]"), MinValue)
  }

  /** The `TagList` getter.  Blank text and the JSON literal null give the
      empty list; other text that is not a JSON array of strings throws. */
  function TagList(item: JournalItem): (r: Result<seq<NullableString>>)
    ensures IsNullOrWhiteSpace(item.Tags) ==> r == Success([])
  {
    DecodeList(item.Tags)
  }

  /** The `SecondaryMoodList` getter, the same rule over `SecondaryMoods`. */
  function SecondaryMoodList(item: JournalItem): (r: Result<seq<NullableString>>)
    ensures IsNullOrWhiteSpace(item.SecondaryMoods) ==> r == Success([])
  {
    DecodeList(item.SecondaryMoods)
  }

  /** The `TagList` setter: stores the serialised list (a null list
      serialises as `null`).  Reading back gives the list assigned, and no
      other field changes. */
  function WithTagList(item: JournalItem, xs: Option<seq<NullableString>>): (r: JournalItem)
    ensures TagList(r) == Success(if xs.Some? then xs.value else [])
    ensures r.(Tags := item.Tags) == item
    ensures SecondaryMoodList(r) == SecondaryMoodList(item)
  {
    item.(Tags := EncodeList(xs))
  }

  /** The `SecondaryMoodList` setter. */
  function WithSecondaryMoodList(item: JournalItem, xs: Option<seq<NullableString>>): (r: JournalItem)
    ensures SecondaryMoodList(r) == Success(if xs.Some? then xs.value else [])
    ensures r.(SecondaryMoods := item.SecondaryMoods) == item
    ensures TagList(r) == TagList(item)
  {
    item.(SecondaryMoods := EncodeList(xs))
  }

  // ---------------------------------------------------------------------
  // Properties of the list views

  /** A fresh item's two list views are empty. */
  lemma NewItemListsEmpty()
    ensures TagList(NewJournalItem()) == Success([])
    ensures SecondaryMoodList(NewJournalItem()) == Success([])
  {
  }

  /** Text holding the JSON literal null reads as the empty list. */
  lemma NullLiteralIsEmptyList(item: JournalItem)
    requires item.Tags == Str("null")
    ensures TagList(item) == Success([])
  {
    NullRoundTrip("null");
    assert !AllWhiteSpace("null") by { assert !IsWhiteSpace("null"[0]); }
  }

  /** Non-blank text that starts like no JSON array and no null fails to
      read: the getter has no fallback for malformed text. */
  lemma MalformedTagsFail(item: JournalItem)
    requires !IsNullOrWhiteSpace(item.Tags)
    requires SkipWhiteSpace(item.Tags.value) != [] && SkipWhiteSpace(item.Tags.value)[0] !in "[n"
    ensures TagList(item).Failure?
  {
    DecodeRejectsOtherValues(item.Tags.value);
  }

  /** Assigning a list that was just read stores text that reads the same. */
  lemma ReassignTagList(item: JournalItem)
    requires TagList(item).Success?
    ensures TagList(WithTagList(item, Some(TagList(item).value))) == TagList(item)
  {
  }
}
