/** The photo display controller: the browse page of a category and the detail page of
    one photo. Each handler fills the view model's attribute map and returns the name of
    the view to render. The data layer, the login and vote lookups and the external key
    and URL providers are passed in as values and functions. */
module PhotoDisplay {
  import opened Pagination

  /** Photos shown per browse page: a positive size, as every page formula needs. */
  function NumPhotoPerPage(): (n: int)
    ensures n >= 1
  {
    3
  }

  /** A photo category; its name is what the category prints as. */
  datatype Category = Category(name: string)

  /** A photo as the data layer returns it; the controller only passes it on. */
  datatype Photo = Photo(id: int, category: string)

  /** A value stored under an attribute name of the view model. */
  datatype Attribute =
    | IntAttr(i: int)
    | TextAttr(text: string)
    | CategoryAttr(category: Category)
    | PhotoListAttr(photos: seq<Photo>)
    | PhotoAttr(photo: Photo)
    | NullAttr

  datatype Option<T> = None | Some(value: T)

  /** How a request ends: a view to render, or a null dereference that aborts the handler
      with the attributes added so far left in the model. */
  datatype Response = Rendered(view: string) | NullPointerThrown

  /** The attribute stored for a photo lookup's answer; a missing photo is stored as null. */
  function PhotoOrNull(photo: Option<Photo>): (a: Attribute)
    ensures a.NullAttr? <==> photo.None?
    ensures photo.Some? ==> a == PhotoAttr(photo.value)
  {
    match photo
    case Some(ph) => PhotoAttr(ph)
    case None => NullAttr
  }

  /** The index range the browse page asked the data layer for, if it asked at all. */
  datatype Fetch = NoFetch | FetchRange(start: int, end: int)

  /** The view model handed to the template: adding a name again replaces its value. */
  class Model {
    var attributes: map<string, Attribute>

    constructor ()
      ensures attributes == map[]
    {
      attributes := map[];
    }

    method AddAttribute(name: string, value: Attribute)
      modifies this
      ensures attributes == old(attributes)[name := value]
    {
      attributes := attributes[name := value];
    }
  }

  /** Adding a name again with the value it already has leaves an attribute map as it is. */
  lemma ReAddSameValue(attributes: map<string, Attribute>, name: string, value: Attribute)
    requires name in attributes && attributes[name] == value
    ensures attributes[name := value] == attributes
  {
  }

  /** The message shown for a category that has no photos. */
  function EmptyCategoryMessage(category: Category): (m: string)
    ensures |m| > 31 && category.name <= m[31..]
  {
    "No photo entries in category - " + category.name + ".  Be the first one to upload! <a href=\"submit\""
  }

  /** The browse page of `category`. `numEntries` is the category's entry count and
      `getTopPhotos(start, end, category)` the data layer's photos of a zero-based inclusive
      index range; `imageURL` is the base URL of the images. An empty category gives the
      error view and no fetch; otherwise the page asked for is clamped into range, the
      page's range is fetched, and the browse view shows it. */
  method ShowBrowsePage(category: Category, currentPage: int, numEntries: int,
                        getTopPhotos: (int, int, Category) -> seq<Photo>,
                        imageURL: string, model: Model)
    returns (view: string, fetch: Fetch)
    modifies model
    ensures view == "error" <==> numEntries < 1
    ensures view == "error" || view == "browse"
    ensures fetch.FetchRange? ==> 0 <= fetch.start < numEntries && fetch.end - fetch.start + 1 == NumPhotoPerPage()
    ensures match ResolvePage(numEntries, currentPage, NumPhotoPerPage())
      case Failed(_) =>
        fetch == NoFetch &&
        model.attributes == old(model.attributes)["message" := TextAttr(EmptyCategoryMessage(category))]
      case Resolved(p) =>
        fetch == FetchRange(p.start, p.end) &&
        model.attributes == old(model.attributes)
          ["numPages" := IntAttr(p.numPages)]
          ["photos" := PhotoListAttr(getTopPhotos(p.start, p.end, category))]
          ["imageURL" := TextAttr(imageURL)]
          ["currentPage" := IntAttr(p.currentPage)]
          ["category" := CategoryAttr(category)]
  {
    if numEntries < 1 {
      model.AddAttribute("message", TextAttr(EmptyCategoryMessage(category)));
      return "error", NoFetch;
    }

    var numPages: int;
    if numEntries % NumPhotoPerPage() != 0 {
      numPages := numEntries / NumPhotoPerPage() + 1;
    } else {
      numPages := numEntries / NumPhotoPerPage();
    }
    model.AddAttribute("numPages", IntAttr(numPages));

    var page := currentPage;
    if page < 1 {
      page := 1;
    } else if page > numPages {
      page := numPages;
    }

    assert numPages == NumPages(numEntries, NumPhotoPerPage());
    assert page == Clamp(currentPage, numPages);
    FetchBranchTaken(numEntries, NumPhotoPerPage(), page);
    PageFill(numEntries, NumPhotoPerPage(), page);

    var photos: seq<Photo>;
    if (page == numPages && numEntries % NumPhotoPerPage() == 0) || (numPages >= 1 && page < numPages) {
      // pages holding a full page of photos
      fetch := FetchRange((page - 1) * NumPhotoPerPage(), (page - 1) * NumPhotoPerPage() + (NumPhotoPerPage() - 1));
      photos := getTopPhotos(fetch.start, fetch.end, category);
    } else if page == numPages && numEntries % NumPhotoPerPage() != 0 {
      // the last page, holding fewer photos
      fetch := FetchRange((page - 1) * NumPhotoPerPage(), (page - 1) * NumPhotoPerPage() + (NumPhotoPerPage() - 1));
      photos := getTopPhotos(fetch.start, fetch.end, category);
    } else {
      // the failed-retrieval error view: one of the two conditions above always holds
      assert false;
    }
    assert fetch == FetchRange(RangeStart(page, NumPhotoPerPage()), RangeEnd(page, NumPhotoPerPage()));
    assert ResolvePage(numEntries, currentPage, NumPhotoPerPage()).page == Page(page, numPages, fetch.start, fetch.end);

    model.AddAttribute("photos", PhotoListAttr(photos));
    model.AddAttribute("imageURL", TextAttr(imageURL));
    model.AddAttribute("currentPage", IntAttr(page));
    // the page count is added a second time, with the value it already has
    ReAddSameValue(model.attributes, "numPages", IntAttr(numPages));
    model.AddAttribute("numPages", IntAttr(numPages));
    model.AddAttribute("category", CategoryAttr(category));
    view := "browse";
  }

  /** The detail page of photo `photoID`, reached from browse page `prevPage`.
      `getPhoto` is the data layer's photo lookup (None for an id without a photo),
      `userLoggedIn` the session's login status, `userID` the session's user id attribute
      (None when absent), `userLastVote(user, photo)` that user's last vote on the photo,
      `getEnum` the category of a photo's category text, `apiKey` the maps key and
      `getFBAuthUrl` the social-login link for the base URL `baseURL`. Reading the user id
      of a logged-in session without one, or the category of a missing photo, is a null
      dereference: the handler stops there, keeping the attributes already added. */
  method ShowPhotoDetails(photoID: int, prevPage: int, getPhoto: int -> Option<Photo>,
                          imageURL: string, userLoggedIn: bool, userID: Option<string>,
                          userLastVote: (string, int) -> int, getEnum: string -> Category,
                          apiKey: string, baseURL: string, getFBAuthUrl: string -> string,
                          model: Model)
    returns (response: Response)
    modifies model
    ensures response == Rendered("photo-detail")
        <==> getPhoto(photoID).Some? && (userLoggedIn ==> userID.Some?)
    ensures response.Rendered? || response.NullPointerThrown?
    ensures "prevPage" in model.attributes && model.attributes["prevPage"] == IntAttr(prevPage)
    ensures response.Rendered? ==> "voteStat" in model.attributes
    ensures response.Rendered? && !userLoggedIn ==> model.attributes["voteStat"] == IntAttr(0)
    ensures response.Rendered? && userLoggedIn
        ==> userID.Some? && model.attributes["voteStat"] == IntAttr(userLastVote(userID.value, photoID))
    ensures var shown := old(model.attributes)
              ["prevPage" := IntAttr(prevPage)]
              ["photo" := PhotoOrNull(getPhoto(photoID))]
              ["imageURL" := TextAttr(imageURL)];
            if userLoggedIn && userID.None? then
              model.attributes == shown
            else
              var voted := shown["voteStat" := IntAttr(if userLoggedIn then userLastVote(userID.value, photoID) else 0)];
              if getPhoto(photoID).None? then
                model.attributes == voted
              else
                model.attributes == voted
                  ["category" := CategoryAttr(getEnum(getPhoto(photoID).value.category))]
                  ["apiKey" := TextAttr(apiKey)]
                  ["facebookLogin" := TextAttr(getFBAuthUrl(baseURL))]
  {
    model.AddAttribute("prevPage", IntAttr(prevPage));

    var photo := getPhoto(photoID);
    model.AddAttribute("photo", PhotoOrNull(photo));

    model.AddAttribute("imageURL", TextAttr(imageURL));

    if userLoggedIn {
      if userID.None? {
        return NullPointerThrown;
      }
      model.AddAttribute("voteStat", IntAttr(userLastVote(userID.value, photoID)));
    } else {
      model.AddAttribute("voteStat", IntAttr(0));
    }

    if photo.None? {
      return NullPointerThrown;
    }
    model.AddAttribute("category", CategoryAttr(getEnum(photo.value.category)));
    model.AddAttribute("apiKey", TextAttr(apiKey));
    model.AddAttribute("facebookLogin", TextAttr(getFBAuthUrl(baseURL)));
    response := Rendered("photo-detail");
  }
}
