/** The page and the Apps Script backend together: what `saveToMap` sends
    comes back first from `getCheckIns`, and is placed on the map and in the
    home gallery. */
module EndToEnd {
  import opened Options
  import opened Sheets
  import opened Backend
  import opened BackendProperties
  import opened Client

  /** The body `saveToMap` posts, as the backend parses it. */
  function SaveBody(p: SavePayload): Json {
    JsonObject(map[
      "locationName" := JStr(p.locationName),
      "latitude" := JNum(p.latitude),
      "longitude" := JNum(p.longitude),
      "description" := JStr(p.description)])
  }

  /** The backend's defaults for falsy fields (`''` and `0`) are exactly the
      falsy values themselves, so a posted field is stored as sent. */
  lemma StoredAsSent(s: Scalar, d: Cell)
    requires (s.JStr? && d == Text("")) || (s.JNum? && d == Number(0.0))
    ensures OrDefault(Some(s), d) == ToCell(s)
  {
  }

  /** A listed check-in whose coordinates are numbers gets a marker unless
      it sits at exactly (0, 0). */
  lemma MarkerOfNumbers(item: Record, lat: real, lng: real)
    requires Lookup(item, "latitude") == Some(Number(lat))
    requires Lookup(item, "longitude") == Some(Number(lng))
    ensures HasMarker(item) <==> !(lat == 0.0 && lng == 0.0)
  {
    assert Coordinates(item) == (JsNumber.Finite(lat), JsNumber.Finite(lng));
  }

  /** The two requests the page makes, as `handleRequest` routes them. */
  lemma RoutedRequests(b: Book, body: Json, env: Env)
    ensures HandleRequest(b, Backend.Request(Some("saveCheckIn"), Parsed(body)), env) == SaveCheckIn(b, body, env)
    ensures HandleRequest(b, Backend.Request(Some("getCheckIns"), NoPostData), env) == GetCheckIns(b)
  {
  }

  /** What the page posts is what the backend then lists first. */
  lemma SaveBodyStored(p: SavePayload)
    ensures var f := SaveBody(p).fields;
      && OrDefault(Field(f, "locationName"), Text("")) == Text(p.locationName)
      && OrDefault(Field(f, "latitude"), Number(0.0)) == Number(p.latitude)
      && OrDefault(Field(f, "longitude"), Number(0.0)) == Number(p.longitude)
      && OrDefault(Field(f, "description"), Text("")) == Text(p.description)
  {
    var f := SaveBody(p).fields;
    assert Field(f, "locationName") == Some(JStr(p.locationName));
    assert Field(f, "latitude") == Some(JNum(p.latitude));
    assert Field(f, "longitude") == Some(JNum(p.longitude));
    assert Field(f, "description") == Some(JStr(p.description));
    StoredAsSent(JStr(p.locationName), Text(""));
    StoredAsSent(JNum(p.latitude), Number(0.0));
    StoredAsSent(JNum(p.longitude), Number(0.0));
    StoredAsSent(JStr(p.description), Text(""));
  }

  lemma PayloadListedFirst(b: Book, p: SavePayload, env: Env)
    requires WellFormed(b)
    ensures var saved := SaveCheckIn(b, SaveBody(p), env);
      var items := GetCheckIns(saved.book).response.data.items;
      && saved.response.Success?
      && |items| >= 1
      && Lookup(items[0], "id") == Some(Text(env.uuid))
      && Lookup(items[0], "locationName") == Some(Text(p.locationName))
      && Lookup(items[0], "latitude") == Some(Number(p.latitude))
      && Lookup(items[0], "longitude") == Some(Number(p.longitude))
      && Lookup(items[0], "description") == Some(Text(p.description))
  {
    SaveThenListRoundTrip(b, SaveBody(p).fields, env);
    SaveBodyStored(p);
  }

  /** A check-in saved from the page is the first one the page lists next:
      its fields are the ones sent, it heads the home gallery, and it gets a
      map marker unless it sits at exactly (0, 0). */
  lemma SavedCheckInListedFirst(b: Book, lat: Option<real>, lng: Option<real>, nameInput: string,
                                descInput: string, env: Env, env': Env)
    requires WellFormed(b)
    requires SaveToMap(lat, lng, nameInput, descInput).SaveSend?
    ensures var p := SaveToMap(lat, lng, nameInput, descInput).payload;
      var saved := HandleRequest(b, Backend.Request(Some("saveCheckIn"), Parsed(SaveBody(p))), env);
      var listed := HandleRequest(saved.book, Backend.Request(Some("getCheckIns"), NoPostData), env');
      var items := listed.response.data.items;
      && saved.response.Success?
      && listed.response.Success? && listed.response.data.CheckIns?
      && |items| >= 1
      && Lookup(items[0], "locationName") == Some(Text(p.locationName))
      && (HasMarker(items[0]) <==> !(p.latitude == 0.0 && p.longitude == 0.0))
      && HomeGallery(items).Cards? && HomeGallery(items).items[0] == items[0]
  {
    var p := SaveToMap(lat, lng, nameInput, descInput).payload;
    var saved := SaveCheckIn(b, SaveBody(p), env);
    RoutedRequests(b, SaveBody(p), env);
    RoutedRequests(saved.book, SaveBody(p), env');
    PayloadListedFirst(b, p, env);
    var items := GetCheckIns(saved.book).response.data.items;
    MarkerOfNumbers(items[0], p.latitude, p.longitude);
  }
}
