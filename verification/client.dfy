/** The pure rules of the browser client: page names from the URL fragment,
    the two form guards, the image file name, the home gallery's slice, the
    map-marker filter and the local share counter. DOM, maps, canvas and
    browser storage are left to the caller: their inputs are parameters. */
module Client {
  import opened Options
  import opened Seqs
  import opened JsText
  import JsNumber
  import Sheets
  import Backend

  // ---------------------------------------------------------------- pages

  /** `String.prototype.toUpperCase` of one UTF-16 unit, for the ASCII and
      Latin-1 lower-case letters and the unaccented Greek and basic Cyrillic
      alphabets; `ß` becomes `SS`, and everything else is unchanged. A
      character outside the Basic Multilingual Plane is two units, and
      `charAt(0)` takes only the first, which has no upper case. */
  function UpperCase(c: char): (u: string)
    ensures |u| == 1 || c == 'ß'
    ensures 'a' <= c <= 'z' ==> u == [(c as int - 32) as char]
    ensures !('a' <= c <= 'z') && c as int < 0x80 ==> u == [c]
  {
    var n := c as int;
    if 'a' <= c <= 'z' then [(n - 32) as char]
    else if n == 0xB5 then [0x39C as char]
    else if n == 0xDF then "SS"
    else if 0xE0 <= n <= 0xFE && n != 0xF7 then [(n - 32) as char]
    else if n == 0xFF then [0x178 as char]
    else if n == 0x3C2 then [0x3A3 as char]
    else if 0x3B1 <= n <= 0x3C9 then [(n - 32) as char]
    else if 0x430 <= n <= 0x44F then [(n - 32) as char]
    else if 0x450 <= n <= 0x45F then [(n - 80) as char]
    else [c]
  }

  /** `capitalize`: upper-cases the first character only. */
  function Capitalize(s: string): (r: string)
    ensures s == [] ==> r == []
    ensures s != [] ==> |r| >= |s| - 1 && r[|r| - (|s| - 1)..] == s[1..]
    ensures s != [] && s[0] != 'ß' ==> |r| == |s|
  {
    if s == [] then []
    else
      CapitalizeHead(s[0], s[1..]);
      assert [s[0]] + s[1..] == s;
      UpperCase(s[0]) + s[1..]
  }

  lemma CapitalizeHead(c: char, rest: string)
    ensures var r := UpperCase(c) + rest;
      |r| >= |rest| && r[|r| - |rest|..] == rest && (c != 'ß' ==> |r| == |rest| + 1)
  {
    var r := UpperCase(c) + rest;
    assert r[|UpperCase(c)|..] == rest;
  }

  /** On a text that starts with an ASCII character, `capitalize` turns a
      lower-case letter into its capital and leaves anything else alone. */
  lemma CapitalizeAscii(s: string)
    requires s != [] && s[0] as int < 0x80
    ensures 'a' <= s[0] <= 'z' ==> |Capitalize(s)| == |s| && Capitalize(s)[0] as int == s[0] as int - 32
    ensures 'a' <= s[0] <= 'z' ==> Capitalize(s)[1..] == s[1..]
    ensures !('a' <= s[0] <= 'z') <==> Capitalize(s) == s
  {
    assert [s[0]] + s[1..] == s;
    var r := Capitalize(s);
    if 'a' <= s[0] <= 'z' {
      assert r == [(s[0] as int - 32) as char] + s[1..];
      assert r[0] != s[0];
    }
  }

  /** The id of the element that shows `page`. */
  function PageElementId(page: string): (id: string)
    ensures |id| >= 4 && id[..4] == "page" && id[4..] == Capitalize(page)
  {
    "page" + Capitalize(page)
  }

  /** A page named in lower-case ASCII is shown by the element whose id is
      `page` followed by the name with its first letter upper-cased. */
  lemma PageElementIdOfLowerCase(c: char, rest: string)
    requires 'a' <= c <= 'z'
    ensures PageElementId([c] + rest) == "page" + [(c as int - 32) as char] + rest
  {
    assert ([c] + rest)[1..] == rest;
  }

  /** The map page's element is `pageMap`. */
  lemma MapPageElement()
    ensures PageElementId("map") == "pageMap"
  {
    PageElementIdOfLowerCase('m', "ap");
    assert [('m' as int - 32) as char] == "M";
    assert "map" == ['m'] + "ap";
  }

  /** The index of the first `c` in `s`, or `|s|` when there is none. */
  function IndexOf(s: string, c: char): (i: nat)
    ensures i <= |s| && (i < |s| ==> s[i] == c)
    ensures forall k :: 0 <= k < i ==> s[k] != c
  {
    if s == [] || s[0] == c then 0 else 1 + IndexOf(s[1..], c)
  }

  /** `s.replace(c, '')` with a one-character string pattern: only the first
      occurrence goes. */
  function RemoveFirst(s: string, c: char): (r: string)
    ensures c !in s ==> r == s
    ensures c in s ==> |r| == |s| - 1 && r == s[..IndexOf(s, c)] + s[IndexOf(s, c) + 1..]
  {
    var i := IndexOf(s, c);
    if i == |s| then s else s[..i] + s[i + 1..]
  }

  /** `location.hash.replace('#', '') || 'home'`. */
  function PageFromHash(hash: string): (page: string)
    ensures page != []
    ensures |hash| > 1 && hash[0] == '#' ==> page == hash[1..]
    ensures hash == [] || hash == "#" ==> page == "home"
  {
    var p := RemoveFirst(hash, '#');
    if p == [] then "home" else p
  }

  /** The start-up rule: navigate only when the fragment names a page other
      than `home`, which is already showing. */
  function InitialNavigation(hash: string): (target: Option<string>)
    ensures target.Some? <==> PageFromHash(hash) != "home"
    ensures target.Some? ==> target.value == PageFromHash(hash)
  {
    var page := PageFromHash(hash);
    if page != "home" then Some(page) else None
  }

  /** What `navigateTo` leaves behind: the current page, the fragment, the
      element shown, and whether the main map is (re)initialised. */
  datatype Nav = Nav(currentPage: string, hash: string, shown: string, mapScheduled: bool)

  /** The fragment `location.hash` reads back after `location.hash = value`:
      the setter drops one leading `#` of the value, and an empty fragment
      reads back as `''`. Percent-encoding of the fragment is not modelled. */
  function HashAfterSet(value: string): (h: string)
    ensures h == [] || (h[0] == '#' && |h| > 1)
    ensures value != [] && value[0] != '#' ==> h == "#" + value
    ensures value != [] && value[0] == '#' ==> h == (if |value| == 1 then [] else value)
    ensures value == [] ==> h == []
  {
    var fragment := if value != [] && value[0] == '#' then value[1..] else value;
    if fragment == [] then [] else "#" + fragment
  }

  /** `navigateTo(page, pushHash)`: the page, its element and the map are
      switched, and the fragment is set to `page` only when asked. */
  function Navigate(nav: Nav, page: string, pushHash: bool): (n: Nav)
    ensures n.currentPage == page && n.shown == PageElementId(page)
    ensures !pushHash ==> n.hash == nav.hash
    ensures pushHash ==> n.hash == HashAfterSet(page)
    ensures n.mapScheduled <==> page == "map"
  {
    Nav(page, if pushHash then HashAfterSet(page) else nav.hash, PageElementId(page), page == "map")
  }

  /** `navigateTo(page, false)`, the reaction to a `hashchange` event. */
  function OnHashChange(nav: Nav, hash: string): (n: Nav)
    ensures n.currentPage == PageFromHash(hash) && n.hash == nav.hash
  {
    Navigate(nav, PageFromHash(hash), false)
  }

  /** The state `initApp` leaves behind: the start-up rule applied to the
      fragment the page was opened with. */
  function AfterLoad(nav: Nav, hash: string): (n: Nav)
    ensures n.hash == nav.hash
  {
    match InitialNavigation(hash)
    case Some(page) => Navigate(nav, page, false)
    case None => nav
  }

  /** Starting on `home`, as every load does, the page shown after start-up
      is the one the fragment names, exactly as a later `hashchange` to the
      same fragment would show; and the map is scheduled only for `#map`. */
  lemma LoadShowsHashPage(nav: Nav, hash: string)
    requires nav.currentPage == "home" && nav.shown == PageElementId("home") && !nav.mapScheduled
    ensures AfterLoad(nav, hash).currentPage == PageFromHash(hash)
    ensures AfterLoad(nav, hash) == OnHashChange(nav, hash)
    ensures AfterLoad(nav, hash).mapScheduled <==> PageFromHash(hash) == "map"
  {
  }

  /** Navigating with a pushed hash and then reacting to the `hashchange`
      event lands on the same page; a page written with a leading `#` lands
      on the page without it, since the hash setter drops that `#`. */
  lemma NavigateHashRoundTrip(nav: Nav, page: string)
    requires page != []
    ensures page[0] != '#' ==> PageFromHash(Navigate(nav, page, true).hash) == page
    ensures page[0] == '#' ==>
      PageFromHash(Navigate(nav, page, true).hash) == (if |page| == 1 then "home" else page[1..])
  {
    if page[0] != '#' {
      assert ("#" + page)[1..] == page;
    } else if |page| > 1 {
      assert page == "#" + page[1..];
    }
  }

  // ---------------------------------------------------------------- forms

  /** The body `saveToMap` posts. */
  datatype SavePayload = SavePayload(locationName: string, latitude: real, longitude: real, description: string)

  datatype SaveOutcome = SaveNeedsGps | SaveNeedsName | SaveSend(payload: SavePayload)

  /** `saveToMap`: refuses without a GPS fix (a `null` coordinate), then
      without a name once trimmed; otherwise sends the trimmed name, both
      coordinates and the trimmed description. */
  function SaveToMap(latitude: Option<real>, longitude: Option<real>, nameInput: string, descriptionInput: string): (o: SaveOutcome)
    ensures o.SaveSend? <==> latitude.Some? && longitude.Some? && Trim(nameInput) != []
    ensures latitude.None? || longitude.None? ==> o == SaveNeedsGps
    ensures o.SaveSend? ==> o.payload.locationName == Trim(nameInput) && o.payload.locationName != []
    ensures o.SaveSend? ==> o.payload.latitude == latitude.value && o.payload.longitude == longitude.value
    ensures o.SaveSend? ==> o.payload.description == Trim(descriptionInput)
  {
    if latitude.None? || longitude.None? then SaveNeedsGps
    else
      var name := Trim(nameInput);
      if name == [] then SaveNeedsName
      else SaveSend(SavePayload(name, latitude.value, longitude.value, Trim(descriptionInput)))
  }

  datatype ImageOutcome = NeedsPhoto | NeedsGps | NeedsName | Compose(locationName: string)

  /** `generateImage`'s guards, in order: a photo (a non-empty data URL),
      then both coordinates, then a non-blank name; only the first failure is
      reported. Rendering the image is not modelled. */
  function GenerateImage(photoDataUrl: Option<string>, latitude: Option<real>, longitude: Option<real>, nameInput: string): (o: ImageOutcome)
    ensures (photoDataUrl.None? || photoDataUrl == Some("")) <==> o == NeedsPhoto
    ensures o == NeedsGps <==> o != NeedsPhoto && (latitude.None? || longitude.None?)
    ensures o == NeedsName <==> o != NeedsPhoto && o != NeedsGps && Trim(nameInput) == []
    ensures o.Compose? ==> o.locationName == Trim(nameInput)
  {
    if photoDataUrl.None? || photoDataUrl.value == "" then NeedsPhoto
    else if latitude.None? || longitude.None? then NeedsGps
    else
      var name := Trim(nameInput);
      if name == [] then NeedsName else Compose(name)
  }

  /** Given a photo, the image composer and `saveToMap` accept exactly the same
      inputs, and a composed image carries the name that would be saved. */
  lemma ComposeAgreesWithSave(photo: string, latitude: Option<real>, longitude: Option<real>, nameInput: string, desc: string)
    requires photo != ""
    ensures var g := GenerateImage(Some(photo), latitude, longitude, nameInput);
      var s := SaveToMap(latitude, longitude, nameInput, desc);
      && (g.Compose? <==> s.SaveSend?)
      && (g == NeedsGps <==> s == SaveNeedsGps)
      && (g == NeedsName <==> s == SaveNeedsName)
      && (g.Compose? ==> g.locationName == s.payload.locationName)
  {
  }

  // ------------------------------------------------------------ file name

  /** `s.replace(/\s+/g, '_')`: each maximal run of white space becomes one
      underscore. `inRun` says whether the previous character was white space. */
  function CollapseSpaces(s: string, inRun: bool): (r: string)
    ensures NoSpace(r)
    ensures |r| <= |s|
    ensures NoSpace(s) ==> r == s
    ensures Visible(r) == Visible(s)
  {
    if s == [] then []
    else if IsSpace(s[0]) then
      var rest := CollapseSpaces(s[1..], true);
      if inRun then rest else "_" + rest
    else
      var rest := CollapseSpaces(s[1..], false);
      assert NoSpace(s) ==> NoSpace(s[1..]);
      [s[0]] + rest
  }

  /** Whether the character before the rest of the text was white space,
      after reading `x` in state `inRun`. */
  function EndsInRun(x: string, inRun: bool): bool {
    if x == [] then inRun else IsSpace(x[|x| - 1])
  }

  /** What the first character of the text contributes. */
  function Lead(c: char, inRun: bool): string {
    if !IsSpace(c) then [c] else if inRun then [] else "_"
  }

  lemma CollapseCons(s: string, inRun: bool)
    requires s != []
    ensures CollapseSpaces(s, inRun) == Lead(s[0], inRun) + CollapseSpaces(s[1..], IsSpace(s[0]))
  {
    if IsSpace(s[0]) && inRun {
      assert Lead(s[0], inRun) + CollapseSpaces(s[1..], true) == CollapseSpaces(s[1..], true);
    }
  }

  lemma CollapseConsConcat(x: string, y: string, inRun: bool)
    requires x != []
    ensures CollapseSpaces(x + y, inRun) == Lead(x[0], inRun) + CollapseSpaces(x[1..] + y, IsSpace(x[0]))
  {
    assert (x + y)[0] == x[0] && (x + y)[1..] == x[1..] + y;
    CollapseCons(x + y, inRun);
  }

  /** Collapsing works piecewise: the second part continues in the state the
      first part ended in. */
  lemma {:induction false} CollapseConcat(x: string, y: string, inRun: bool)
    ensures CollapseSpaces(x + y, inRun) == CollapseSpaces(x, inRun) + CollapseSpaces(y, EndsInRun(x, inRun))
    decreases |x|
  {
    if x == [] {
      assert x + y == y;
    } else {
      CollapseConcat(x[1..], y, IsSpace(x[0]));
      CollapseConcatStep(x, y, inRun);
    }
  }

  lemma CollapseConcatStep(x: string, y: string, inRun: bool)
    requires x != []
    requires CollapseSpaces(x[1..] + y, IsSpace(x[0]))
      == CollapseSpaces(x[1..], IsSpace(x[0])) + CollapseSpaces(y, EndsInRun(x[1..], IsSpace(x[0])))
    ensures CollapseSpaces(x + y, inRun) == CollapseSpaces(x, inRun) + CollapseSpaces(y, EndsInRun(x, inRun))
  {
    assert EndsInRun(x[1..], IsSpace(x[0])) == EndsInRun(x, inRun);
    CollapseConsConcat(x, y, inRun);
    CollapseCons(x, inRun);
    Regroup(CollapseSpaces(x + y, inRun), CollapseSpaces(x, inRun), Lead(x[0], inRun),
      CollapseSpaces(x[1..] + y, IsSpace(x[0])), CollapseSpaces(x[1..], IsSpace(x[0])), CollapseSpaces(y, EndsInRun(x, inRun)));
  }

  lemma Regroup(whole: string, front: string, lead: string, rest: string, r: string, tail: string)
    requires whole == lead + rest && rest == r + tail && front == lead + r
    ensures whole == front + tail
  {
  }

  /** A non-empty run of white space becomes one `_`, or nothing when it
      continues a run. */
  lemma {:induction false} CollapseRun(w: string, inRun: bool)
    requires w != [] && forall k :: 0 <= k < |w| ==> IsSpace(w[k])
    ensures CollapseSpaces(w, inRun) == if inRun then [] else "_"
    decreases |w|
  {
    if |w| > 1 {
      CollapseRun(w[1..], true);
    }
  }

  /** Text that does not start with white space collapses the same whether a
      run came before it or not. */
  lemma CollapseAfterRun(y: string)
    requires y == [] || !IsSpace(y[0])
    ensures CollapseSpaces(y, true) == CollapseSpaces(y, false)
  {
  }

  /** One maximal run of white space between two parts becomes exactly one
      `_` between the collapsed parts. */
  lemma CollapseOneRun(x: string, w: string, y: string)
    requires x == [] || !IsSpace(x[|x| - 1])
    requires w != [] && forall k :: 0 <= k < |w| ==> IsSpace(w[k])
    requires y == [] || !IsSpace(y[0])
    ensures CollapseSpaces(x + w + y, false) == CollapseSpaces(x, false) + "_" + CollapseSpaces(y, false)
  {
    CollapseConcat(x + w, y, false);
    CollapseConcat(x, w, false);
    assert !EndsInRun(x, false);
    CollapseRun(w, false);
    assert EndsInRun(x + w, false) by {
      assert (x + w)[|x + w| - 1] == w[|w| - 1];
    }
    CollapseAfterRun(y);
  }

  /** Two words separated by white space are joined by a single `_`. */
  lemma CollapseJoinsWords(a: string, w: string, b: string)
    requires NoSpace(a) && NoSpace(b)
    requires w != [] && forall k :: 0 <= k < |w| ==> IsSpace(w[k])
    ensures CollapseSpaces(a + w + b, false) == a + "_" + b
  {
    CollapseOneRun(a, w, b);
  }

  /** The characters that are neither white space nor `_`, in order. */
  function Visible(s: string): string {
    if s == [] then []
    else if IsSpace(s[0]) || s[0] == '_' then Visible(s[1..])
    else [s[0]] + Visible(s[1..])
  }

  /** `KoShare_<name>.png`, where the name is the trimmed input (or `fallback`
      when that is empty) with its white-space runs turned into `_`. */
  function ImageFileName(nameInput: string, fallback: string): (f: string)
    ensures |f| >= 12 && f[..8] == "KoShare_" && f[|f| - 4..] == ".png"
    ensures NoSpace(fallback) ==> NoSpace(f)
    ensures Trim(nameInput) == [] && NoSpace(fallback) ==> f == FileName(fallback)
    ensures var n := Trim(nameInput);
      Visible(f[8..|f| - 4]) == Visible(if n == [] then fallback else n)
  {
    var name := Trim(nameInput);
    var base := CollapseSpaces(if name == [] then fallback else name, false);
    FileNameParts(base);
    FileName(base)
  }

  /** `KoShare_<base>.png`. */
  function FileName(base: string): string {
    "KoShare_" + base + ".png"
  }

  lemma FileNameParts(base: string)
    requires NoSpace(base)
    ensures var f := "KoShare_" + base + ".png";
      && |f| == |base| + 12 && f[..8] == "KoShare_" && f[|f| - 4..] == ".png"
      && f[8..|f| - 4] == base && NoSpace(f)
  {
    var f := "KoShare_" + base + ".png";
    assert NoSpace("KoShare_") && NoSpace(".png");
    forall k | 0 <= k < |f| ensures !IsSpace(f[k]) {
      if k < 8 { assert f[k] == "KoShare_"[k]; }
      else if k < 8 + |base| { assert f[k] == base[k - 8]; }
      else { assert f[k] == ".png"[k - 8 - |base|]; }
    }
  }

  /** The file name `downloadImage` saves under. */
  function DownloadFileName(nameInput: string): (f: string)
    ensures Trim(nameInput) == [] ==> f == "KoShare_location.png"
    ensures NoSpace(f)
  {
    LocationHasNoSpace();
    LocationFileName();
    ImageFileName(nameInput, "location")
  }

  lemma LocationFileName()
    ensures FileName("location") == "KoShare_location.png"
  {
  }

  lemma LocationHasNoSpace()
    ensures NoSpace("location")
  {
    forall k | 0 <= k < 8 ensures !IsSpace("location"[k]) {
      assert 'a' <= "location"[k] <= 'z';
    }
  }

  /** Surrounding white space is dropped and the run between two words
      becomes one `_`: `"  Wat  Pho "` is saved as `KoShare_Wat_Pho.png`. */
  lemma DownloadFileNameJoinsWords(pad: string, a: string, w: string, b: string, tail: string)
    requires forall k :: 0 <= k < |pad| ==> IsSpace(pad[k])
    requires forall k :: 0 <= k < |tail| ==> IsSpace(tail[k])
    requires a != [] && b != [] && NoSpace(a) && NoSpace(b)
    requires w != [] && forall k :: 0 <= k < |w| ==> IsSpace(w[k])
    ensures DownloadFileName(pad + a + w + b + tail) == FileName(a + "_" + b)
  {
    WordsTrimmed(pad, a, w, b, tail);
    CollapseJoinsWords(a, w, b);
  }

  lemma DownloadFileNameExample()
    ensures DownloadFileName("  Wat  Pho ") == "KoShare_Wat_Pho.png"
  {
    var input := "  " + "Wat" + "  " + "Pho" + " ";
    assert input == "  Wat  Pho ";
    WordsWithoutSpace();
    DownloadFileNameJoinsWords("  ", "Wat", "  ", "Pho", " ");
    WatPhoFileName();
  }

  lemma WordsWithoutSpace()
    ensures NoSpace("Wat") && NoSpace("Pho")
  {
    assert forall k :: 0 <= k < 3 ==> 'A' <= "Wat"[k] <= 'z' && 'A' <= "Pho"[k] <= 'z';
  }

  lemma WatPhoFileName()
    ensures FileName("Wat" + "_" + "Pho") == "KoShare_Wat_Pho.png"
  {
    assert "Wat" + "_" + "Pho" == "Wat_Pho";
  }

  /** The trimmed text of `pad a w b tail` is `a w b`. */
  lemma WordsTrimmed(pad: string, a: string, w: string, b: string, tail: string)
    requires forall k :: 0 <= k < |pad| ==> IsSpace(pad[k])
    requires forall k :: 0 <= k < |tail| ==> IsSpace(tail[k])
    requires a != [] && b != [] && NoSpace(a) && NoSpace(b)
    ensures Trim(pad + a + w + b + tail) == a + w + b
  {
    var t := a + w + b;
    assert pad + a + w + b + tail == pad + (t + tail);
    assert t[0] == a[0] && t[|t| - 1] == b[|b| - 1];
    TrimStartSkips(pad, t + tail);
    assert TrimStart(t + tail) == t + tail;
    TrimEndSkips(t, tail);
  }

  lemma {:induction false} TrimEndSkips(t: string, tail: string)
    requires t != [] && !IsSpace(t[|t| - 1])
    requires forall k :: 0 <= k < |tail| ==> IsSpace(tail[k])
    ensures TrimEnd(t + tail) == t
    decreases |tail|
  {
    if tail == [] {
      assert t + tail == t;
    } else {
      assert (t + tail)[..|t + tail| - 1] == t + tail[..|tail| - 1];
      TrimEndSkips(t, tail[..|tail| - 1]);
    }
  }

  /** The fallback name `shareImage` uses: "learning place". */
  const ShareFallback: string := "\U{0E41}\U{0E2B}\U{0E25}\U{0E48}\U{0E07}\U{0E40}\U{0E23}\U{0E35}\U{0E22}\U{0E19}\U{0E23}\U{0E39}\U{0E49}"

  /** The file name `shareImage` attaches. */
  function ShareFileName(nameInput: string): (f: string)
    ensures NoSpace(f)
  {
    assert forall k :: 0 <= k < |ShareFallback| ==> 0x0E00 <= ShareFallback[k] as int <= 0x0E7F;
    ImageFileName(nameInput, ShareFallback)
  }

  /** The shared file is named by the same rule as the downloaded one. */
  lemma ShareFileNameJoinsWords(pad: string, a: string, w: string, b: string, tail: string)
    requires forall k :: 0 <= k < |pad| ==> IsSpace(pad[k])
    requires forall k :: 0 <= k < |tail| ==> IsSpace(tail[k])
    requires a != [] && b != [] && NoSpace(a) && NoSpace(b)
    requires w != [] && forall k :: 0 <= k < |w| ==> IsSpace(w[k])
    ensures ShareFileName(pad + a + w + b + tail) == FileName(a + "_" + b)
  {
    WordsTrimmed(pad, a, w, b, tail);
    CollapseJoinsWords(a, w, b);
  }

  // -------------------------------------------------------- home gallery

  datatype GalleryView<T> = EmptyState | Cards(items: seq<T>)

  /** `renderHomeGallery`: the empty-state panel, or the first five items in
      the order received. */
  function HomeGallery<T>(checkIns: seq<T>): (v: GalleryView<T>)
    ensures v.EmptyState? <==> checkIns == []
    ensures v.Cards? ==> |v.items| == Min(5, |checkIns|) && v.items == checkIns[..|v.items|]
  {
    if checkIns == [] then EmptyState else Cards(if |checkIns| <= 5 then checkIns else checkIns[..5])
  }

  // ------------------------------------------------------------- markers

  /** `Number(v)` of a field of a listed check-in. A blank cell travels as
      `""`, which is 0; an absent field is `undefined`, which is NaN. */
  function ToNumber(v: Option<Sheets.Cell>): JsNumber.Num {
    match v
    case None => JsNumber.NaN
    case Some(Blank) => JsNumber.Finite(0.0)
    case Some(Text(s)) => JsNumber.StringToNumber(s)
    case Some(Number(r)) => JsNumber.Finite(r)
    case Some(Bool(b)) => JsNumber.Finite(if b then 1.0 else 0.0)
  }

  /** The pair `addCheckInMarkers` reads from a check-in. */
  function Coordinates(item: Backend.Record): (JsNumber.Num, JsNumber.Num) {
    (ToNumber(Backend.Lookup(item, "latitude")), ToNumber(Backend.Lookup(item, "longitude")))
  }

  /** Neither coordinate is NaN, and they are not both exactly 0. */
  predicate HasMarker(item: Backend.Record) {
    var (lat, lng) := Coordinates(item);
    !lat.NaN? && !lng.NaN? && !(lat == JsNumber.Finite(0.0) && lng == JsNumber.Finite(0.0))
  }

  /** How many of `items` get a marker. */
  function MarkedCount(items: seq<Backend.Record>): nat {
    if items == [] then 0 else (if HasMarker(items[0]) then 1 else 0) + MarkedCount(items[1..])
  }

  /** The points `addCheckInMarkers` puts on the map (and fits the view to):
      one per item with a marker, in list order, so the item at `i` gives the
      point after those of the marked items before it. */
  function MarkerPoints(items: seq<Backend.Record>): (pts: seq<(JsNumber.Num, JsNumber.Num)>)
    ensures |pts| == MarkedCount(items) <= |items|
    ensures forall p :: p in pts ==> exists i :: 0 <= i < |items| && HasMarker(items[i]) && Coordinates(items[i]) == p
    ensures forall i :: 0 <= i < |items| && HasMarker(items[i]) ==>
      MarkedCount(items[..i]) < |pts| && pts[MarkedCount(items[..i])] == Coordinates(items[i])
  {
    if items == [] then []
    else
      var rest := MarkerPoints(items[1..]);
      var pts := (if HasMarker(items[0]) then [Coordinates(items[0])] else []) + rest;
      MarkerPointsCons(items, rest, pts);
      pts
  }

  /** The step of `MarkerPoints`: the first item's point, if any, goes in
      front of the points of the rest. */
  lemma MarkerPointsCons(items: seq<Backend.Record>, rest: seq<(JsNumber.Num, JsNumber.Num)>, pts: seq<(JsNumber.Num, JsNumber.Num)>)
    requires items != []
    requires |rest| == MarkedCount(items[1..]) <= |items| - 1
    requires forall p :: p in rest ==> exists i :: 0 <= i < |items[1..]| && HasMarker(items[1..][i]) && Coordinates(items[1..][i]) == p
    requires forall i :: 0 <= i < |items[1..]| && HasMarker(items[1..][i]) ==>
      MarkedCount(items[1..][..i]) < |rest| && rest[MarkedCount(items[1..][..i])] == Coordinates(items[1..][i])
    requires pts == (if HasMarker(items[0]) then [Coordinates(items[0])] else []) + rest
    ensures |pts| == MarkedCount(items) <= |items|
    ensures forall p :: p in pts ==> exists i :: 0 <= i < |items| && HasMarker(items[i]) && Coordinates(items[i]) == p
    ensures forall i :: 0 <= i < |items| && HasMarker(items[i]) ==>
      MarkedCount(items[..i]) < |pts| && pts[MarkedCount(items[..i])] == Coordinates(items[i])
  {
    MarkerMembersCons(items, rest, pts);
    MarkerRanksCons(items, rest, pts);
  }

  lemma MarkerMembersCons(items: seq<Backend.Record>, rest: seq<(JsNumber.Num, JsNumber.Num)>, pts: seq<(JsNumber.Num, JsNumber.Num)>)
    requires items != []
    requires forall p :: p in rest ==> exists i :: 0 <= i < |items[1..]| && HasMarker(items[1..][i]) && Coordinates(items[1..][i]) == p
    requires pts == (if HasMarker(items[0]) then [Coordinates(items[0])] else []) + rest
    ensures forall p :: p in pts ==> exists i :: 0 <= i < |items| && HasMarker(items[i]) && Coordinates(items[i]) == p
  {
    assert forall i :: 1 <= i < |items| ==> items[i] == items[1..][i - 1];
  }

  lemma MarkerRanksCons(items: seq<Backend.Record>, rest: seq<(JsNumber.Num, JsNumber.Num)>, pts: seq<(JsNumber.Num, JsNumber.Num)>)
    requires items != []
    requires |rest| == MarkedCount(items[1..])
    requires forall i :: 0 <= i < |items[1..]| && HasMarker(items[1..][i]) ==>
      MarkedCount(items[1..][..i]) < |rest| && rest[MarkedCount(items[1..][..i])] == Coordinates(items[1..][i])
    requires pts == (if HasMarker(items[0]) then [Coordinates(items[0])] else []) + rest
    ensures |pts| == MarkedCount(items)
    ensures forall i :: 0 <= i < |items| && HasMarker(items[i]) ==>
      MarkedCount(items[..i]) < |pts| && pts[MarkedCount(items[..i])] == Coordinates(items[i])
  {
    forall i | 0 <= i < |items| && HasMarker(items[i])
      ensures MarkedCount(items[..i]) < |pts| && pts[MarkedCount(items[..i])] == Coordinates(items[i])
    {
      if i == 0 {
        assert MarkedCount(items[..0]) == 0;
      } else {
        assert items[1..][i - 1] == items[i];
        RankAfterHead(items, rest, pts, i);
      }
    }
  }

  lemma RankAfterHead(items: seq<Backend.Record>, rest: seq<(JsNumber.Num, JsNumber.Num)>, pts: seq<(JsNumber.Num, JsNumber.Num)>, i: nat)
    requires 1 <= i < |items|
    requires pts == (if HasMarker(items[0]) then [Coordinates(items[0])] else []) + rest
    requires MarkedCount(items[1..][..i - 1]) < |rest| && rest[MarkedCount(items[1..][..i - 1])] == Coordinates(items[i])
    ensures MarkedCount(items[..i]) < |pts| && pts[MarkedCount(items[..i])] == Coordinates(items[i])
  {
    MarkedCountPrefix(items, i);
  }

  lemma MarkedCountPrefix(items: seq<Backend.Record>, i: nat)
    requires 1 <= i <= |items|
    ensures MarkedCount(items[..i]) == (if HasMarker(items[0]) then 1 else 0) + MarkedCount(items[1..][..i - 1])
  {
    assert items[..i][0] == items[0] && items[..i][1..] == items[1..][..i - 1];
  }

  // -------------------------------------------------------- share counter

  /** The share counter as the page holds it, NaN included. */
  datatype Counter = Count(n: int) | NotANumber

  /** `localStorage.getItem('koShareCount') || '0'`. */
  function StoredOrZero(stored: Option<string>): string {
    if stored.None? || stored.value == "" then "0" else stored.value
  }

  /** The counter as app.js loads it: `parseInt` of the stored text, which is
      NaN when that text does not start with an integer. */
  function LoadShareCountAsWritten(stored: Option<string>): (c: Counter)
    ensures stored.None? ==> c == Count(0)
  {
    ParseIntOfZero();
    match ParseInt(StoredOrZero(stored))
    case Some(n) => Count(n)
    case None => NotANumber
  }

  /** A counter stored as `String(m)` loads back as `m`. */
  lemma LoadShareCountAsWrittenReadsBack(m: int)
    ensures LoadShareCountAsWritten(Some(IntToString(m))) == Count(m)
  {
    ParseIntOfIntToString(m);
  }

  /** `incrementShareCount` as written: `++` on NaN stays NaN, and the text
      stored is `String(count)`. */
  function IncrementShareCountAsWritten(c: Counter): (r: (Counter, string))
    ensures c.Count? ==> r == (Count(c.n + 1), IntToString(c.n + 1))
    ensures c.NotANumber? ==> r == (NotANumber, "NaN")
  {
    match c
    case Count(n) => (Count(n + 1), IntToString(n + 1))
    case NotANumber => (NotANumber, "NaN")
  }

  /** What a share stores reloads as the counter it leaves behind: one more
      than before, or NaN for good once it is NaN. */
  lemma IncrementShareCountAsWrittenPersists(c: Counter)
    ensures var r := IncrementShareCountAsWritten(c);
      LoadShareCountAsWritten(Some(r.1)) == r.0
    ensures c.Count? ==> IncrementShareCountAsWritten(c).0 == Count(c.n + 1)
    ensures c.NotANumber? ==> IncrementShareCountAsWritten(c).0 == NotANumber
  {
    match c
    case Count(n) => LoadShareCountAsWrittenReadsBack(n + 1);
    case NotANumber =>
      ParseIntOfNonNumeral("NaN");
      assert StoredOrZero(Some("NaN")) == "NaN";
  }

  /** A stored value that is not a number (here `"abc"`) makes the counter
      NaN, and sharing persists `"NaN"`, so the counter never recovers. */
  lemma ShareCountStuckAtNaN()
    ensures LoadShareCountAsWritten(Some("abc")) == NotANumber
    ensures IncrementShareCountAsWritten(LoadShareCountAsWritten(Some("abc"))).1 == "NaN"
    ensures LoadShareCountAsWritten(Some("NaN")) == NotANumber
  {
    ParseIntOfNonNumeral("abc");
    ParseIntOfNonNumeral("NaN");
    assert StoredOrZero(Some("abc")) == "abc";
    assert StoredOrZero(Some("NaN")) == "NaN";
  }

  /** The counter as evidently intended: the stored integer, or 0 when it is
      absent or does not parse (the guard the backend's visit counter has). */
  function LoadShareCount(stored: Option<string>): (n: int)
    ensures stored.None? ==> n == 0
  {
    ParseIntOfZero();
    ParseIntOrZero(StoredOrZero(stored))
  }

  /** A counter stored as `String(m)` loads back as `m`. */
  lemma LoadShareCountReadsBack(m: int)
    ensures LoadShareCount(Some(IntToString(m))) == m
  {
    ParseIntOfIntToString(m);
  }

  /** `incrementShareCount`: one more, and the text to store. */
  function IncrementShareCount(n: int): (r: (int, string))
    ensures r.0 == n + 1
  {
    (n + 1, IntToString(n + 1))
  }

  /** What a share stores reloads as the incremented counter: the round trip
      the as-written counter loses once it holds NaN. */
  lemma IncrementShareCountPersists(stored: Option<string>)
    ensures var r := IncrementShareCount(LoadShareCount(stored));
      LoadShareCount(Some(r.1)) == r.0 == LoadShareCount(stored) + 1
  {
    LoadShareCountReadsBack(LoadShareCount(stored) + 1);
  }
}
