/**
 * The details view of one photo: fetch the record, then render one of
 * four mutually exclusive views, choosing the first that applies:
 * loading, the error message, "Photo not found", or the photo itself.
 * Missing text falls back along `description || alt_description || default`,
 * where, as in JavaScript, both null and the empty string fall through.
 */
module PhotoDetails {
  import opened Wrappers
  import opened Photos

  const LOAD_ERROR: string := "Failed to load photo details. Please try again."
  const LOADING_TEXT: string := "Loading..."
  const NOT_FOUND_TEXT: string := "Photo not found"
  const UNTITLED: string := "Untitled"
  const NO_DESCRIPTION: string := "No description available"
  const DEFAULT_ALT: string := "Unsplash photo"

  /** JavaScript truthiness of a `string | null`. */
  predicate Truthy(s: Option<string>)
  {
    s.Some? && s.value != ""
  }

  /** `first || fallback`: the first operand when it is truthy, otherwise the fallback. */
  function Or(first: Option<string>, fallback: string): (r: string)
    ensures r == fallback || (first.Some? && r == first.value)
    ensures r != "" <==> Truthy(first) || fallback != ""
  {
    if Truthy(first) then first.value else fallback
  }

  /** The heading: `description || alt_description || 'Untitled'`. */
  function Title(p: Photo): (title: string)
    ensures title != ""
  {
    Or(p.description, Or(p.altDescription, UNTITLED))
  }

  /** The text below it: `description || alt_description || 'No description available'`. */
  function Body(p: Photo): (body: string)
    ensures body != ""
  {
    Or(p.description, Or(p.altDescription, NO_DESCRIPTION))
  }

  /** The image's alt text: `alt_description || 'Unsplash photo'`. */
  function AltText(p: Photo): (alt: string)
    ensures alt != ""
  {
    Or(p.altDescription, DEFAULT_ALT)
  }

  /**
   * The heading and the body take the first non-empty text of description
   * and alt text, and differ only in their default; neither is ever blank.
   */
  lemma TextFallbacks(p: Photo)
    ensures Truthy(p.description) ==> Title(p) == Body(p) == p.description.value
    ensures !Truthy(p.description) && Truthy(p.altDescription) ==>
      Title(p) == Body(p) == p.altDescription.value
    ensures !Truthy(p.description) && !Truthy(p.altDescription) ==>
      Title(p) == UNTITLED && Body(p) == NO_DESCRIPTION
    ensures Title(p) != "" && Body(p) != "" && AltText(p) != ""
    ensures Truthy(p.altDescription) ==> AltText(p) == p.altDescription.value
    ensures !Truthy(p.altDescription) ==> AltText(p) == DEFAULT_ALT
  {
  }

  /** What the loaded view shows of a photo (markup, links and the localized date left aside). */
  datatype DetailsPage = DetailsPage(
    imageSrc: string,
    altText: string,
    userName: string,
    username: string,
    title: string,
    body: string,
    likes: nat,
    width: nat,
    height: nat
  )

  /** The loaded view never leaves its heading, its text or its alt text blank. */
  function PageOf(p: Photo): (page: DetailsPage)
    ensures page.title != "" && page.body != "" && page.altText != ""
    ensures page.imageSrc == p.urls.regular
  {
    DetailsPage(p.urls.regular, AltText(p), p.user.name, p.user.username, Title(p), Body(p),
                p.likes, p.width, p.height)
  }

  datatype View = Loading | ErrorMessage(text: string) | NotFound | Details(page: DetailsPage)

  /** The text a view shows when it is not the photo itself. */
  function Text(v: View): (t: Option<string>)
    ensures t.None? <==> v.Details?
    ensures v.ErrorMessage? ==> t == Some(v.text)
  {
    match v
    case Loading => Some(LOADING_TEXT)
    case ErrorMessage(text) => Some(text)
    case NotFound => Some(NOT_FOUND_TEXT)
    case Details(_) => None
  }

  /** First-match render selection. */
  function Render(loading: bool, error: Option<string>, photo: Option<Photo>): (v: View)
    ensures v.Loading? <==> loading
    ensures v.ErrorMessage? <==> !loading && Truthy(error)
    ensures v.NotFound? <==> !loading && !Truthy(error) && photo.None?
    ensures v.Details? <==> !loading && !Truthy(error) && photo.Some?
    ensures v.ErrorMessage? ==> v.text == error.value
    ensures v.Details? ==> v.page == PageOf(photo.value)
  {
    if loading then Loading
    else if Truthy(error) then ErrorMessage(error.value)
    else if photo.None? then NotFound
    else Details(PageOf(photo.value))
  }

  /** The details component, with the fields that `fetchPhoto` updates. */
  class DetailsView {
    var photo: Option<Photo>
    var loading: bool
    var error: Option<string>

    /** The only error ever set is the fixed message. */
    ghost predicate Valid()
      reads this
    {
      error == None || error == Some(LOAD_ERROR)
    }

    function Shown(): View
      reads this
    {
      Render(loading, error, photo)
    }

    constructor ()
      ensures Valid()
      ensures photo == None && loading && error == None
      ensures Shown() == Loading
    {
      photo, loading, error := None, true, None;
    }

    /** The fetch starts (on mount and whenever the photo id changes). */
    method BeginFetch()
      requires Valid()
      modifies this
      ensures Valid()
      ensures loading && photo == old(photo) && error == old(error)
      ensures Shown() == Loading
    {
      loading := true;
    }

    /**
     * The response arrives: its body becomes the photo and an earlier error
     * is cleared. A body that is null (a successful response without a
     * record) leads to the not-found view.
     */
    method FetchSucceeded(data: Option<Photo>)
      requires Valid() && loading
      modifies this
      ensures Valid()
      ensures photo == data && error == None && !loading
      ensures Shown() == if data.Some? then Details(PageOf(data.value)) else NotFound
    {
      photo := data;
      error := None;
      loading := false;
    }

    /** The request fails: the fixed message is shown and no photo content. */
    method FetchFailed()
      requires Valid() && loading
      modifies this
      ensures Valid()
      ensures error == Some(LOAD_ERROR) && photo == old(photo) && !loading
      ensures Shown() == ErrorMessage(LOAD_ERROR) && Text(Shown()) == Some(LOAD_ERROR)
    {
      error := Some(LOAD_ERROR);
      loading := false;
    }
  }
}
