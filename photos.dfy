/**
 * The photo record returned by the photo API, with the fields the gallery
 * and the details view read. It joins the two shapes the client declares:
 * the global `Photo` (thumbnail and small image URLs, user name and avatar)
 * and the one of the details view (regular image URL, user handle,
 * nullable description and alt text, likes, dimensions, creation date).
 */
module Photos {
  import opened Wrappers

  datatype Urls = Urls(thumb: string, small: string, regular: string, full: string)

  datatype User = User(name: string, username: string, profileImageMedium: string)

  datatype Photo = Photo(
    id: string,
    urls: Urls,
    user: User,
    description: Option<string>,
    altDescription: Option<string>,
    likes: nat,
    width: nat,
    height: nat,
    createdAt: string
  )
}
