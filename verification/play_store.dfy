/** The Google Play page normaliser (`parse_google_play_info` and
    `describe_in_app_purchases`, scripts/util/parse.py): the node properties
    for an app's Google Play page, from the page's meta data and its category
    data. Reading the two JSON files is left to the caller: each arrives as
    the parsed object (empty when the file is missing) with its mtime. */
module PlayStore {
  import opened Wrappers
  import opened JsonValue

  const InAppTitle := "In-app purchases"

  // ---------------------------------------------------------------------
  // `describe_in_app_purchases` (:104-117).

  /** `for section in value`: a list yields its items, an empty dict or
      string yields nothing, a non-empty dict or string yields keys or
      characters (which the caller then fails to subscript with `'title'`),
      and anything else is not iterable. */
  function Sections(v: Json): (r: Result<seq<Json>, string>)
    ensures v.JArr? ==> r == Success(v.items)
    ensures r.Success? && !v.JArr? ==> r.value == []
  {
    match v
    case JArr(items) => Success(items)
    case JObj(fields) => if fields == map[] then Success([]) else Failure("TypeError")
    case JStr(s) => if s == "" then Success([]) else Failure("TypeError")
    case _ => Failure("TypeError")
  }

  /** The section is a dict whose title is the in-app purchases title. */
  predicate IsInAppSection(v: Json) {
    v.JObj? && "title" in v.fields && v.fields["title"] == JStr(InAppTitle)
  }

  /** The section is a dict with some other title. */
  predicate IsOtherSection(v: Json) {
    v.JObj? && "title" in v.fields && v.fields["title"] != JStr(InAppTitle)
  }

  /** `section['description'][0]['description']`. */
  function DescriptionOf(section: Object): Result<Json, string> {
    if "description" !in section then Failure("KeyError")
    else match section["description"]
      case JArr(items) =>
        if items == [] then Failure("IndexError")
        else if items[0].JObj? && "description" in items[0].fields then Success(items[0].fields["description"])
        else Failure("TypeError")
      case _ => Failure("TypeError")
  }

  /** The loop over the sections: the description of the first section
      titled "In-app purchases", `None` when no section is. */
  function FindInAppPurchases(sections: seq<Json>): (r: Result<Option<Json>, string>)
    ensures r == Success(None) <==> forall i :: 0 <= i < |sections| ==> IsOtherSection(sections[i])
    decreases |sections|
  {
    if sections == [] then Success(None)
    else
      var section := sections[0];
      var rest := sections[1..];
      assert forall i :: 0 < i < |sections| ==> sections[i] == rest[i - 1];
      match section
      case JObj(fields) =>
        if "title" !in fields then Failure("KeyError")
        else if fields["title"] == JStr(InAppTitle) then
          var d :- DescriptionOf(fields);
          Success(Some(d))
        else
          FindInAppPurchases(rest)
      case _ => Failure("TypeError")
  }

  /** A description found comes from the first in-app purchases section,
      every section before it being a dict with another title. */
  lemma {:induction false} FoundIsFirst(sections: seq<Json>)
    requires FindInAppPurchases(sections).Success? && FindInAppPurchases(sections).value.Some?
    ensures exists i :: 0 <= i < |sections| && IsInAppSection(sections[i])
                        && (forall j :: 0 <= j < i ==> IsOtherSection(sections[j]))
                        && DescriptionOf(sections[i].fields) == Success(FindInAppPurchases(sections).value.value)
    decreases |sections|
  {
    var rest := sections[1..];
    if !IsInAppSection(sections[0]) {
      FoundIsFirst(rest);
      var i :| 0 <= i < |rest| && IsInAppSection(rest[i])
               && (forall j :: 0 <= j < i ==> IsOtherSection(rest[j]))
               && DescriptionOf(rest[i].fields) == Success(FindInAppPurchases(rest).value.value);
      assert sections[i + 1] == rest[i];
      assert forall j :: 0 < j < i + 1 ==> sections[j] == rest[j - 1];
    }
  }

  /** `describe_in_app_purchases(meta_data)`. */
  function DescribeInAppPurchases(meta: Object): (r: Result<Option<Json>, string>)
    ensures "productDetails" !in meta ==> r == Success(None)
    ensures "productDetails" in meta && !meta["productDetails"].JObj? ==> r.Failure?
    ensures r.Success? && r.value.Some? ==>
              && "productDetails" in meta && meta["productDetails"].JObj?
              && "section" in meta["productDetails"].fields && meta["productDetails"].fields["section"].JArr?
  {
    var details :- GetObject(meta, "productDetails");
    var sections :- Sections(if "section" in details then details["section"] else JArr([]));
    FindInAppPurchases(sections)
  }

  /** Meta data without product details has no in-app purchases. */
  lemma NoProductDetails(meta: Object)
    requires "productDetails" !in meta
    ensures DescribeInAppPurchases(meta) == Success(None)
  {
  }

  /** The description of the first in-app purchases section is found
      whatever follows it. */
  lemma FirstInAppSectionWins(meta: Object, before: seq<Json>, section: Object, after: seq<Json>)
    requires "productDetails" in meta && meta["productDetails"].JObj?
    requires var details := meta["productDetails"].fields;
             "section" in details && details["section"] == JArr(before + [JObj(section)] + after)
    requires forall j :: 0 <= j < |before| ==> IsOtherSection(before[j])
    requires IsInAppSection(JObj(section)) && DescriptionOf(section).Success?
    ensures DescribeInAppPurchases(meta) == Success(Some(DescriptionOf(section).value))
  {
    var sections := before + [JObj(section)] + after;
    var r := FindInAppPurchases(sections);
    assert sections[|before|] == JObj(section);
    assert !(forall i :: 0 <= i < |sections| ==> IsOtherSection(sections[i]));
    FirstInAppSectionFound(sections, |before|);
  }

  /** The search stops at the first in-app purchases section. */
  lemma {:induction false} FirstInAppSectionFound(sections: seq<Json>, k: int)
    requires 0 <= k < |sections| && IsInAppSection(sections[k])
    requires forall j :: 0 <= j < k ==> IsOtherSection(sections[j])
    requires DescriptionOf(sections[k].fields).Success?
    ensures FindInAppPurchases(sections) == Success(Some(DescriptionOf(sections[k].fields).value))
    decreases k
  {
    if k > 0 {
      var rest := sections[1..];
      assert forall j :: 0 <= j < k - 1 ==> rest[j] == sections[j + 1];
      FirstInAppSectionFound(rest, k - 1);
    }
  }

  // ---------------------------------------------------------------------
  // `parse_google_play_info` (:136-208).

  /** The two files read for a package: each parsed object is empty when the
      file is missing, and its mtime is `None` then. */
  datatype PlayFiles = PlayFiles(meta: Object, mtime: Option<int>, category: Object, categoryMtime: Option<int>)

  /** The offer list is a non-empty list whose first entry is a dict. */
  predicate OfferShape(offer: Json) {
    offer.JArr? && offer.items != [] && offer.items[0].JObj?
  }

  /** `formattedAmount` and `currencyCode` of the first offer, `None` for
      both when there is no offer; a truthy offer that is not a list of
      dicts raises. */
  function Offer(meta: Object): (r: Result<(Json, Json), string>)
    ensures !Truthy(Get(meta, "offer")) ==> r == Success((JNull, JNull))
    ensures Truthy(Get(meta, "offer")) ==> (r.Success? <==> OfferShape(Get(meta, "offer")))
    ensures OfferShape(Get(meta, "offer")) ==>
              var first := Get(meta, "offer").items[0].fields;
              r == Success((Get(first, "formattedAmount"), Get(first, "currencyCode")))
  {
    var offer := if "offer" in meta then meta["offer"] else JArr([]);
    if !Truthy(offer) then Success((JNull, JNull))
    else match offer
      case JArr(items) =>
        (match items[0]
         case JObj(first) => Success((Get(first, "formattedAmount"), Get(first, "currencyCode")))
         case _ => Failure("AttributeError"))
      case _ => Failure("TypeError")
  }

  /** `app_details.setdefault('appCategory', []).append(category_data['appCategory'])`. */
  function AppendCategory(appDetails: Object, category: Object): (r: Result<Object, string>)
    ensures r.Success? ==> r.value.Keys == appDetails.Keys + {"appCategory"}
    ensures r.Success? ==> forall k :: k in appDetails && k != "appCategory" ==> r.value[k] == appDetails[k]
    ensures r.Success? <==> "appCategory" in category && ("appCategory" in appDetails ==> appDetails["appCategory"].JArr?)
    ensures r.Success? ==>
              r.value["appCategory"]
              == JArr((if "appCategory" in appDetails then appDetails["appCategory"].items else []) + [category["appCategory"]])
  {
    var existing := if "appCategory" in appDetails then appDetails["appCategory"] else JArr([]);
    match existing
    case JArr(items) =>
      if "appCategory" !in category then Failure("KeyError")
      else Success(appDetails["appCategory" := JArr(items + [category["appCategory"]])])
    case _ => Failure("AttributeError")
  }

  /** `aggregate_rating`: the stored dict, `{}` when it is missing or falsy. */
  function Rating(meta: Object): (r: Result<Object, string>)
    ensures !Truthy(Get(meta, "aggregateRating")) ==> r == Success(map[])
    ensures Truthy(Get(meta, "aggregateRating")) ==> (r.Success? <==> meta["aggregateRating"].JObj?)
    ensures Truthy(Get(meta, "aggregateRating")) && r.Success? ==> r.value == meta["aggregateRating"].fields
  {
    var rating := Get(meta, "aggregateRating");
    if !Truthy(rating) then Success(map[])
    else match rating
      case JObj(fields) => Success(fields)
      case _ => Failure("AttributeError")
  }

  /** The 22 properties of a Google Play page node. */
  const PlayKeys: set<string> := {
    "docId", "uri", "snapshotTimestamp", "title", "appCategory", "promotionalDescription",
    "descriptionHtml", "translatedDescriptionHtml", "versionCode", "versionString", "uploadDate",
    "formattedAmount", "currencyCode", "in-app purchases", "installNotes", "starRating",
    "numDownloads", "developerName", "developerEmail", "developerWebsite", "targetSdkVersion",
    "permissions"}

  /** The returned dict, one field per property. */
  datatype PlayPage = PlayPage(
    docId: Json, uri: Json, snapshotTimestamp: Json, title: Json, appCategory: Json,
    promotionalDescription: Json, descriptionHtml: Json, translatedDescriptionHtml: Json,
    versionCode: Json, versionString: Json, uploadDate: Json, formattedAmount: Json,
    currencyCode: Json, inAppPurchases: Json, installNotes: Json, starRating: Json,
    numDownloads: Json, developerName: Json, developerEmail: Json, developerWebsite: Json,
    targetSdkVersion: Json, permissions: Json)

  /** The page as the node's property map. */
  function Properties(page: PlayPage): (r: Object)
  {
    map[
      "docId" := page.docId,
      "uri" := page.uri,
      "snapshotTimestamp" := page.snapshotTimestamp,
      "title" := page.title,
      "appCategory" := page.appCategory,
      "promotionalDescription" := page.promotionalDescription,
      "descriptionHtml" := page.descriptionHtml,
      "translatedDescriptionHtml" := page.translatedDescriptionHtml,
      "versionCode" := page.versionCode,
      "versionString" := page.versionString,
      "uploadDate" := page.uploadDate,
      "formattedAmount" := page.formattedAmount,
      "currencyCode" := page.currencyCode,
      "in-app purchases" := page.inAppPurchases,
      "installNotes" := page.installNotes,
      "starRating" := page.starRating,
      "numDownloads" := page.numDownloads,
      "developerName" := page.developerName,
      "developerEmail" := page.developerEmail,
      "developerWebsite" := page.developerWebsite,
      "targetSdkVersion" := page.targetSdkVersion,
      "permissions" := page.permissions
    ]
  }

  /** The node has exactly the 22 properties. */
  lemma PropertiesKeys(page: PlayPage)
    ensures Properties(page).Keys == PlayKeys
  {
  }

  /** The returned dict, from the pieces gathered before it. */
  function Assemble(meta: Object, mtime: Option<int>, appDetails: Object, rating: Object,
                    offer: (Json, Json), inApp: Option<Json>, uploadDate: Option<int>): PlayPage
  {
    PlayPage(
      Get(meta, "docId"), Get(meta, "shareUrl"), OptionalInt(mtime), Get(meta, "title"),
      Get(appDetails, "appCategory"), Get(meta, "promotionalDescription"), Get(meta, "descriptionHtml"),
      Get(meta, "translatedDescriptionHtml"), Get(appDetails, "versionCode"), Get(appDetails, "versionString"),
      OptionalInt(uploadDate), offer.0, offer.1, inApp.GetOr(JNull), Get(appDetails, "installNotes"),
      Get(rating, "starRating"), Get(appDetails, "numDownloads"), Get(appDetails, "developerName"),
      Get(appDetails, "developerEmail"), Get(appDetails, "developerWebsite"),
      Get(appDetails, "targetSdkVersion"), Get(appDetails, "permission"))
  }

  /** The meta data used: the page's own, or a stand-in holding only the
      package name when the page data is missing. */
  function EffectiveMeta(package: string, files: PlayFiles): (meta: Object)
    ensures files.meta != map[] ==> meta == files.meta
    ensures files.meta == map[] ==> meta == map["docId" := JStr(package)]
  {
    if files.meta == map[] then map["docId" := JStr(package)] else files.meta
  }

  /** `parse_google_play_info(package_name, ...)` given the files' contents;
      `parseUploadDate` stands for `parse_upload_date`. */
  function ParseGooglePlayInfo(package: string, files: PlayFiles, parseUploadDate: Object -> Option<int>): (r: Result<Option<PlayPage>, string>)
    ensures r == Success(None) <==> files.meta == map[] && files.category == map[]
    ensures r.Success? && r.value.Some? ==>
              r.value.value.docId == if files.meta == map[] then JStr(package) else Get(files.meta, "docId")
  {
    if files.meta == map[] && files.category == map[] then Success(None)
    else
      var meta := EffectiveMeta(package, files);
      var mtime := if files.meta == map[] then files.categoryMtime else files.mtime;
      var offer :- Offer(meta);
      var details :- GetObject(meta, "details");
      var appDetails :- GetObject(details, "appDetails");
      var appDetails' :- if files.category != map[] then AppendCategory(appDetails, files.category) else Success(appDetails);
      var rating :- Rating(meta);
      var inApp :- DescribeInAppPurchases(meta);
      Success(Some(Assemble(meta, mtime, appDetails', rating, offer, inApp, parseUploadDate(appDetails'))))
  }

  /** With only category data, the page is named after the package and
      timestamped with the category file's mtime; its only category is the
      one from the category data, and it has no price. */
  lemma OnlyCategoryData(package: string, files: PlayFiles, parseUploadDate: Object -> Option<int>)
    requires files.meta == map[] && "appCategory" in files.category
    ensures var r := ParseGooglePlayInfo(package, files, parseUploadDate);
            && r.Success? && r.value.Some?
            && r.value.value.docId == JStr(package)
            && r.value.value.snapshotTimestamp == OptionalInt(files.categoryMtime)
            && r.value.value.appCategory == JArr([files.category["appCategory"]])
            && r.value.value.formattedAmount == JNull && r.value.value.currencyCode == JNull
  {
    var meta := EffectiveMeta(package, files);
    assert "offer" !in meta && "details" !in meta && "aggregateRating" !in meta && "productDetails" !in meta;
    var category := files.category["appCategory"];
    assert [] + [category] == [category];
    assert AppendCategory(map[], files.category).value["appCategory"] == JArr([category]);
  }

  /** With page data, the page keeps the page's id and mtime, and the price
      comes from the first offer, or is `None` without one. */
  lemma PageDataFields(package: string, files: PlayFiles, parseUploadDate: Object -> Option<int>)
    requires files.meta != map[]
    requires ParseGooglePlayInfo(package, files, parseUploadDate).Success?
    ensures var page := ParseGooglePlayInfo(package, files, parseUploadDate).value;
            && page.Some?
            && page.value.docId == Get(files.meta, "docId")
            && page.value.snapshotTimestamp == OptionalInt(files.mtime)
            && (Truthy(Get(files.meta, "offer")) ==>
                  && OfferShape(Get(files.meta, "offer"))
                  && var first := Get(files.meta, "offer").items[0].fields;
                  page.value.formattedAmount == Get(first, "formattedAmount")
                  && page.value.currencyCode == Get(first, "currencyCode"))
            && (!Truthy(Get(files.meta, "offer")) ==> page.value.formattedAmount == JNull && page.value.currencyCode == JNull)
  {
  }

  /** The category data's category is appended to the page's own list. */
  lemma CategoryAppended(package: string, files: PlayFiles, parseUploadDate: Object -> Option<int>, own: seq<Json>)
    requires files.meta != map[] && files.category != map[]
    requires ParseGooglePlayInfo(package, files, parseUploadDate).Success?
    requires "details" in files.meta && files.meta["details"].JObj?
    requires var details := files.meta["details"].fields;
             "appDetails" in details && details["appDetails"].JObj?
             && Get(details["appDetails"].fields, "appCategory") == JArr(own)
    ensures ParseGooglePlayInfo(package, files, parseUploadDate).value.value.appCategory
         == JArr(own + [files.category["appCategory"]])
  {
  }
}
