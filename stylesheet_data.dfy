/** The data carried through an update and the Data Page codec
    (utils/stylesheet/stylesheet_data.py). */
module DataPages {
  import opened Wrappers
  import opened Text
  import opened StylesheetImages
  import opened ImageLists
  import opened Sorting
  import opened DataPageFormat

  /** The values one row of `_image_table_rows` shows for an image. */
  function TableRowOf(image: StylesheetImage): TableRow
    reads image`redditName, image`url, image`remoteFileSize
  {
    TableRow(image.redditName, image.url, image.filename, image.usageCount, image.fileSize,
             image.remoteFileSize, image.width, image.height, image.md5)
  }

  function TableRowsOf(images: seq<StylesheetImage>): (r: seq<TableRow>)
    reads images`redditName, images`url, images`remoteFileSize
    ensures |r| == |images|
    ensures forall k :: 0 <= k < |images| ==> r[k] == TableRowOf(images[k])
    decreases |images|
  {
    if images == [] then [] else [TableRowOf(images[0])] + TableRowsOf(images[1..])
  }

  /** A Stored image made from a parsed row: the five captured values, and
      nothing else set. */
  predicate StoredAs(image: StylesheetImage, row: StoredRow)
    reads image
  {
    image.kind == Kind.Stored && image.WellFormed() &&
    image.filename == Some(row.filename) && image.redditName == Some(row.redditName) &&
    image.url == Some(row.url) && image.md5 == Some(row.md5) &&
    image.remoteFileSize == Some(row.remoteFileSize)
  }

  /** The values `create_data_page` substitutes into the page template. */
  datatype PageSummary = PageSummary(updatedAt: string, comment: string,
                                     currentCssSize: Option<nat>, previousCssSize: Option<nat>,
                                     imagesUnchanged: nat, imagesAdded: nat, imagesRemoved: nat,
                                     imageTableRows: string)

  class StylesheetData {
    const subredditName: string
    const cssFile: string
    const dataPageName: string
    const revisionComment: string
    /** Images recorded on the Data Page by the previous update. */
    const storedImages: StylesheetImageList
    /** Images of the images directory; the builder replaces this list by the assets' own. */
    var localImages: StylesheetImageList
    /** Images currently hosted on Reddit. */
    const remoteImages: StylesheetImageList
    var previousCssSize: Option<nat>
    var savedCssSize: Option<nat>

    /** `StylesheetData(...)`: three fresh, empty, unfiltered, unsorted lists. */
    constructor (subreddit: string, css: string, page: string, comment: string)
      ensures subredditName == subreddit && cssFile == css && dataPageName == page
      ensures revisionComment == comment
      ensures fresh(storedImages) && fresh(localImages) && fresh(remoteImages)
      ensures storedImages != localImages && localImages != remoteImages && storedImages != remoteImages
      ensures storedImages.data == [] && storedImages.condition.None? && storedImages.sortKey.None?
      ensures localImages.data == [] && localImages.condition.None? && localImages.sortKey.None?
      ensures remoteImages.data == [] && remoteImages.condition.None? && remoteImages.sortKey.None?
      ensures previousCssSize.None? && savedCssSize.None?
    {
      subredditName, cssFile, dataPageName, revisionComment := subreddit, css, page, comment;
      storedImages := new StylesheetImageList([], None, false, None);
      localImages := new StylesheetImageList([], None, false, None);
      remoteImages := new StylesheetImageList([], None, false, None);
      previousCssSize, savedCssSize := None, None;
    }

    /** `_image_table_rows`, as values: one row per image of
        `local_images.by_reddit_name`. */
    function ImageTableRows(): (rows: seq<TableRow>)
      reads this, localImages, localImages.data`isNew, localImages.data`redditName,
            localImages.data`isUsed, localImages.data`isReplaced, localImages.data`url,
            localImages.data`remoteFileSize
      ensures |rows| == localImages.Length()
    {
      ViewContents(localImages.data, localImages.condition, Some(RedditNameKey), localImages.sortReverse);
      TableRowsOf(View(localImages.data, localImages.condition, Some(RedditNameKey), localImages.sortReverse))
    }

    /** Every row shows the values of an image the list admits, and the rows
        are ordered by `(len(name), name)`, descending when the list is. */
    lemma ImageTableRowsOrdered()
      ensures var rows := ImageTableRows();
        (forall i :: 0 <= i < |rows| ==>
          exists img :: img in localImages.data && Admits(localImages.condition, img) && rows[i] == TableRowOf(img)) &&
        (forall i, j :: 0 <= i < j < |rows| ==>
          if localImages.sortReverse then !KeyLess(NameOrderKey(rows[i].redditName), NameOrderKey(rows[j].redditName))
          else !KeyLess(NameOrderKey(rows[j].redditName), NameOrderKey(rows[i].redditName)))
    {
      var v := View(localImages.data, localImages.condition, Some(RedditNameKey), localImages.sortReverse);
      ViewContents(localImages.data, localImages.condition, Some(RedditNameKey), localImages.sortReverse);
      var rows := ImageTableRows();
      assert rows == TableRowsOf(v);
      forall i | 0 <= i < |rows|
        ensures exists img :: img in localImages.data && Admits(localImages.condition, img) && rows[i] == TableRowOf(img)
      {
        assert v[i] in localImages.data && rows[i] == TableRowOf(v[i]);
      }
    }

    /** The values substituted into the template; `now` is the UTC time
        of the update in ISO format (the clock is not modelled). */
    function Summary(now: string): (s: PageSummary)
      reads this, localImages, remoteImages, localImages.data, remoteImages.data
    {
      PageSummary(now + " (UTC)", revisionComment, savedCssSize, previousCssSize,
                  |Filter(localImages.data, Some(UnchangedImages))|,
                  |Filter(localImages.data, Some(NewImages))|,
                  |Filter(remoteImages.data, Some(RemovedImages))|,
                  TableText(ImageTableRows()))
    }

    /** The summary's unchanged and added counts split the Local images. */
    lemma SummaryCountsLocalImages(now: string)
      ensures Summary(now).imagesUnchanged + Summary(now).imagesAdded == |localImages.data|
    {
      NewUnchangedPartition(localImages.data);
    }

    /** `create_data_page`: the filled template (`fill` stands for the
        template file) followed by its HMAC, so the page validates. */
    method CreateDataPage(key: string, hmac: Hmac, fill: PageSummary -> string, now: string)
      returns (page: string)
      ensures ValidateDataPage(page, key, hmac)
      ensures page[..|page| - DigestLength] == fill(Summary(now))
    {
      var sameView := localImages.Unchanged();
      var newView := localImages.New();
      var removedView := remoteImages.Removed();
      var summary := PageSummary(now + " (UTC)", revisionComment, savedCssSize, previousCssSize,
                                 sameView.Length(), newView.Length(), removedView.Length(),
                                 TableText(ImageTableRows()));
      page := AppendHmac(fill(summary), key, hmac);
      AppendedPageValidates(fill(summary), key, hmac);
    }

    /** `parse_data_page`: a page that fails validation is refused and
        nothing changes; otherwise one new Stored image per row match of the
        Image Table is appended, in row order. */
    method ParseDataPage(page: string, key: string, hmac: Hmac) returns (ok: bool)
      modifies storedImages`data
      ensures ok == ValidateDataPage(page, key, hmac)
      ensures !ok ==> storedImages.data == old(storedImages.data)
      ensures ok && FindTable(page, 0).None? ==> storedImages.data == old(storedImages.data)
      ensures ok ==> |storedImages.data| == |old(storedImages.data)| + |PageRows(page)|
      ensures ok ==> storedImages.data[..|old(storedImages.data)|] == old(storedImages.data)
      ensures ok ==> forall k :: 0 <= k < |PageRows(page)| ==>
        fresh(storedImages.data[|old(storedImages.data)| + k]) &&
        StoredAs(storedImages.data[|old(storedImages.data)| + k], PageRows(page)[k])
    {
      ok := ValidateDataPage(page, key, hmac);
      if !ok {
        return;
      }
      var rows := PageRows(page);
      ghost var made: seq<StylesheetImage> := [];
      var i := 0;
      while i < |rows|
        invariant 0 <= i <= |rows| && |made| == i
        invariant storedImages.data == old(storedImages.data) + made
        invariant forall k :: 0 <= k < i ==> fresh(made[k]) && StoredAs(made[k], rows[k])
      {
        var row := rows[i];
        var image := new StylesheetImage.Stored(row.filename, row.redditName, row.url, row.md5, row.remoteFileSize);
        storedImages.Append(image);
        made := made + [image];
        i := i + 1;
      }
    }
  }
}
