/**
 * The thumbnail of one gallery item and the local image cache behind it.
 *
 * Resolving a thumbnail is cache-aside: read the stored blob under
 * `"photo-" + id`; on a hit make an object URL from it; on a miss download
 * the image, store the blob and make an object URL from it; if the read,
 * the download or the write fails, fall back to the remote URL. The
 * outcomes of the storage read, the download and the storage write are
 * parameters, since they come from the browser.
 */
module PhotoItem {
  import opened Wrappers
  import opened Photos

  /** Raw image bytes. */
  datatype Blob = Blob(bytes: seq<bv8>)

  /** What the `<img>` is given: an object URL made from a blob, or the remote URL itself. */
  datatype ImageRef = ObjectUrl(blob: Blob) | RemoteUrl(url: string)

  /** The outcome of downloading the image: a blob, or a network failure. */
  datatype Download = Downloaded(blob: Blob) | DownloadFailed

  const KEY_PREFIX: string := "photo-"

  /** The cache key of a photo. */
  function CacheKey(photoId: string): (key: string)
    ensures |key| == |KEY_PREFIX| + |photoId|
    ensures key[..|KEY_PREFIX|] == KEY_PREFIX && key[|KEY_PREFIX|..] == photoId
  {
    KEY_PREFIX + photoId
  }

  /** Distinct photos never share a cache entry. */
  lemma CacheKeyInjective(a: string, b: string)
    ensures CacheKey(a) == CacheKey(b) <==> a == b
  {
    if CacheKey(a) == CacheKey(b) {
      assert a == CacheKey(a)[|KEY_PREFIX|..];
    }
  }

  /** What one resolve produces: the image, whether a download happened, and the new store. */
  datatype Lookup = Lookup(image: ImageRef, fetched: bool, store: map<string, Blob>)

  /** Resolving a thumbnail against a store, given the outcomes of its steps. */
  function Resolve(store: map<string, Blob>, photoId: string, url: string,
                   readOk: bool, download: Download, writeOk: bool): (l: Lookup)
    ensures l.image.RemoteUrl? ==> l.image.url == url && l.store == store
    ensures l.image.ObjectUrl? ==>
      CacheKey(photoId) in l.store && l.store[CacheKey(photoId)] == l.image.blob
    ensures l.store.Keys == store.Keys || l.store.Keys == store.Keys + {CacheKey(photoId)}
    ensures forall k :: k in store && k != CacheKey(photoId) ==> l.store[k] == store[k]
    ensures l.fetched ==> CacheKey(photoId) !in store
  {
    var key := CacheKey(photoId);
    if !readOk then Lookup(RemoteUrl(url), false, store)
    else if key in store then Lookup(ObjectUrl(store[key]), false, store)
    else match download
      case DownloadFailed => Lookup(RemoteUrl(url), true, store)
      case Downloaded(blob) =>
        if writeOk then Lookup(ObjectUrl(blob), true, store[key := blob])
        else Lookup(RemoteUrl(url), true, store)
  }

  /** A hit serves the stored blob, downloads nothing and leaves the store as it was. */
  lemma CacheHit(store: map<string, Blob>, photoId: string, url: string, download: Download, writeOk: bool)
    requires CacheKey(photoId) in store
    ensures Resolve(store, photoId, url, true, download, writeOk) ==
      Lookup(ObjectUrl(store[CacheKey(photoId)]), false, store)
  {
  }

  /** A miss whose download and write succeed stores the blob under the key and serves it. */
  lemma CacheMissStores(store: map<string, Blob>, photoId: string, url: string, blob: Blob)
    requires CacheKey(photoId) !in store
    ensures Resolve(store, photoId, url, true, Downloaded(blob), true) ==
      Lookup(ObjectUrl(blob), true, store[CacheKey(photoId) := blob])
  {
  }

  /** The remote URL is served exactly when the read, the download or the write fails. */
  lemma FallbackExactlyOnFailure(store: map<string, Blob>, photoId: string, url: string,
                                 readOk: bool, download: Download, writeOk: bool)
    ensures Resolve(store, photoId, url, readOk, download, writeOk).image == RemoteUrl(url) <==>
      !readOk || (CacheKey(photoId) !in store && (download.DownloadFailed? || !writeOk))
  {
  }

  /**
   * Once a photo has been served from an object URL, resolving it again is a
   * hit whatever the download would have done: the same image, no download,
   * the same store.
   */
  lemma ResolveIdempotent(store: map<string, Blob>, photoId: string, url: string,
                          readOk: bool, download: Download, writeOk: bool,
                          url': string, download': Download, writeOk': bool)
    requires Resolve(store, photoId, url, readOk, download, writeOk).image.ObjectUrl?
    ensures var first := Resolve(store, photoId, url, readOk, download, writeOk);
      Resolve(first.store, photoId, url', true, download', writeOk') == Lookup(first.image, false, first.store)
  {
  }

  /** The process-wide image store. */
  class ImageStore {
    var entries: map<string, Blob>

    /** Opening the named store: it holds whatever earlier sessions saved in it. */
    constructor (persisted: map<string, Blob>)
      ensures entries == persisted
    {
      entries := persisted;
    }

    /** `getImage`: read, then on a miss download and write, falling back to `url` on any failure. */
    method GetImage(photoId: string, url: string, readOk: bool, download: Download, writeOk: bool)
      returns (image: ImageRef, fetched: bool)
      modifies this
      ensures Lookup(image, fetched, entries) == Resolve(old(entries), photoId, url, readOk, download, writeOk)
    {
      var key := CacheKey(photoId);
      fetched := false;
      if !readOk {
        return RemoteUrl(url), fetched;
      }
      if key in entries {
        return ObjectUrl(entries[key]), fetched;
      }
      fetched := true;
      if download.DownloadFailed? {
        return RemoteUrl(url), fetched;
      }
      var blob := download.blob;
      if !writeOk {
        return RemoteUrl(url), fetched;
      }
      entries := entries[key := blob];
      image := ObjectUrl(blob);
    }
  }

  /** One gallery item: while `loading` it shows a placeholder, then the image in `imgUrl`. */
  class Item {
    const photo: Photo
    const cache: ImageStore
    var imgUrl: Option<ImageRef>
    var loading: bool

    constructor (photo: Photo, cache: ImageStore)
      ensures this.photo == photo && this.cache == cache
      ensures imgUrl == None && loading
    {
      this.photo := photo;
      this.cache := cache;
      imgUrl := None;
      loading := true;
    }

    /**
     * `handleImage`: set `loading`, resolve the thumbnail, keep what was
     * resolved, clear `loading`. Resolving never fails, so the image is
     * always set.
     */
    method HandleImage(readOk: bool, download: Download, writeOk: bool)
      modifies this, cache
      ensures var l := Resolve(old(cache.entries), photo.id, photo.urls.thumb, readOk, download, writeOk);
        imgUrl == Some(l.image) && cache.entries == l.store
      ensures !loading
    {
      loading := true;
      var image, _ := cache.GetImage(photo.id, photo.urls.thumb, readOk, download, writeOk);
      imgUrl := Some(image);
      loading := false;
    }
  }
}
