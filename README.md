# Stylesheet image reconciliation, modelled in Dafny

This project models the core of the r/anime stylesheet tooling. That core has two parts.

The Python engine (`utils/stylesheet/`) does the following:

- **Image records.** It keeps records of Local image files, Remote images hosted on Reddit, and Stored images listed on the subreddit's data page.
- **CSS references.** It counts the CSS references to each image and measures the stylesheet in UTF-8 bytes.
- **Matching.** It matches every Local image against the Stored and Remote records. A Local image keeps its Reddit name when its file is unchanged; otherwise it is marked new.
- **Naming.** It hands the shortest free bijective base-62 names to the most-used unnamed images.
- **Validation.** It validates images and CSS, gathering every error before raising.
- **Data page.** It writes the data page as a Markdown table followed by an HMAC, and reads that table back.
- **Builder.** It rewrites `url("<dir>/<file>")` references to `url(%%name%%)` and strips `@charset` rules.

The TypeScript build (`build/`) has its own helpers:

- base-62 numerals;
- the key-to-name map of `RedditBackend` (first-free naming, pruning, upload selection and byte-order-mark stripping);
- the `Image` registry and cache key;
- the JPEG-quality bisection of `autoCompress`.

Code that changes state in place is modelled as classes with `modifies` frames. This covers the image records, the image lists, the mapper, the validator, the data store, the assets, the builder, the backend map and the image registry. Each loop of the source is a method whose contract ties its result to a specification function; the specification functions are then related by lemmas (round trips, iff-characterisations, order and uniqueness). Pure code is functions with lemmas: regex matchers that follow Python's backtracking order, base-62 numerals and the page format.

Hashes (MD5, SHA-1, HMAC-SHA-384 as in RFC 2104 over FIPS 180-4) are function parameters. The HMAC yields 96 lowercase hex characters. Sizes are UTF-8 lengths as in RFC 3629.

Where the design description and the code differ, the model follows the code. The description says that running out of names raises a capacity error. `assign_reddit_names` (utils/stylesheet/stylesheet_image_mapper.py:123-154) raises nothing: images left over stay unnamed. `NameAllocation` and `ImageMapper` model exactly that.

## Model

| member | source | states |
|---|---|---|
| StylesheetImages.PathJoin | utils/stylesheet/stylesheet_image.py:177 | the joined path ends with the file name |
| StylesheetImages.StylesheetImage.Local | utils/stylesheet/stylesheet_image.py:106-127 | a Local record carries the name, the joined path, the usage count, the byte length of the content, its MD5 digest and the decoded size and format; no Reddit name, URL or remote size; not new |
| StylesheetImages.StylesheetImage.Remote | utils/stylesheet/stylesheet_image.py:220-225 | a Remote record carries only its Reddit name, URL and probed size; it starts neither used nor replaced, so it counts as removed |
| StylesheetImages.StylesheetImage.Stored | utils/stylesheet/stylesheet_image.py:243-251 | a Stored record carries exactly filename, Reddit name, URL, MD5 and remote size, every other attribute is absent |
| StylesheetImages.StylesheetImage.MarkAsNew | utils/stylesheet/stylesheet_image.py:188-191 | the image is new and has no URL; nothing else changes |
| StylesheetImages.StylesheetImage.MarkAsUsed | utils/stylesheet/stylesheet_image.py:231-233 | the image is used and no longer removed; the replaced flag is untouched |
| StylesheetImages.StylesheetImage.MarkAsReplaced | utils/stylesheet/stylesheet_image.py:227-229 | the image is replaced and no longer removed; the used flag is untouched |
| StylesheetImages.StylesheetImage.SetRedditName | utils/stylesheet/stylesheet_image.py:158-161 | the Reddit name of a Local image is the given one, nothing else changes |
| StylesheetImages.StylesheetImage.SetUrl | utils/stylesheet/stylesheet_image.py:168-171 | the URL of a Local image is the given one, nothing else changes |
| StylesheetImages.StylesheetImage.SetRemoteFileSize | utils/stylesheet/stylesheet_image.py:163-166 | the remote size of a Local image is the given one, nothing else changes |
| StylesheetImages.OpenLocal | utils/stylesheet/stylesheet_image.py:173-186 | an undecodable file raises the invalid-image error naming the file; otherwise a fresh, well-formed Local record of that file |
| StylesheetImages.RemoteLifecycle | utils/stylesheet/stylesheet_image.py:205-233 | marking a Remote record used twice leaves it used, not replaced and not removed |
| Sorting.StableSortCorrect | utils/stylesheet/stylesheet_image_list.py:84-85 | `sorted(..., key, reverse)` gives a permutation in key order (reversed for `reverse`) in which equal keys keep their original order |
| Sorting.KeyLessTotal | utils/stylesheet/stylesheet_image_list.py:16-30 | the key order on filenames, `(len(name), name)` pairs and counts is total |
| Sorting.KeyLessTransitive | utils/stylesheet/stylesheet_image_list.py:16-30 | the key order is transitive |
| Sorting.InsertPermutes | utils/stylesheet/stylesheet_image_list.py:85 | inserting one pair adds exactly that pair to the multiset |
| Sorting.InsertSorted | utils/stylesheet/stylesheet_image_list.py:85 | inserting into a sorted sequence keeps it sorted |
| ImageLists.Filter | utils/stylesheet/stylesheet_image_list.py:79-82 | the filtered list is no longer than the list and holds only its images |
| ImageLists.FilterMembers | utils/stylesheet/stylesheet_image_list.py:79-82 | the filtered list holds exactly the admitted images |
| ImageLists.FirstWithIsFirst | utils/stylesheet/stylesheet_image_list.py:135-140 | `find` misses only when no image has the attributes, and otherwise returns the earliest one that has them |
| ImageLists.FirstAdmittedIsFirst | utils/stylesheet/stylesheet_image_list.py:126-140 | `find` on a filtered list returns the earliest admitted image with the attributes, and `None` only when there is none |
| ImageLists.NewUnchangedPartition | utils/stylesheet/stylesheet_image_list.py:46-58 | the `new` and `unchanged` views together hold every image once |
| ImageLists.ValuesSortPermutes | utils/stylesheet/stylesheet_image_list.py:84-85 | sorting keyed images keeps the same images |
| ImageLists.ViewContents | utils/stylesheet/stylesheet_image_list.py:75-88 | iterating a view yields exactly the admitted images, each as often as the list holds it, in key order when a key is set |
| ImageLists.DistinctView | utils/stylesheet/stylesheet_image_list.py:75-88 | a view of a list without repeats has none |
| ImageLists.RedditNameOrder | utils/stylesheet/stylesheet_image_list.py:18-23 | by Reddit name, a shorter name comes first and names of equal length follow their text order |
| ImageLists.StylesheetImageList.constructor | utils/stylesheet/stylesheet_image_list.py:67-73 | the list holds the given data, key, direction and condition |
| ImageLists.StylesheetImageList.PlainItems | utils/stylesheet/stylesheet_image_list.py:75-99 | a list without condition or key yields and counts its data as it is |
| ImageLists.StylesheetImageList.Length | utils/stylesheet/stylesheet_image_list.py:90-99 | the length is the number of images iteration yields |
| ImageLists.StylesheetImageList.FilteredBy | utils/stylesheet/stylesheet_image_list.py:101-110 | a fresh list over the same data with the new condition, key and direction kept |
| ImageLists.StylesheetImageList.SortedBy | utils/stylesheet/stylesheet_image_list.py:112-124 | a fresh list over the same data and condition with the new key, the direction kept unless one is given |
| ImageLists.StylesheetImageList.ByFilename | utils/stylesheet/stylesheet_image_list.py:12-16 | same data and condition, sorted by filename |
| ImageLists.StylesheetImageList.ByRedditName | utils/stylesheet/stylesheet_image_list.py:18-23 | same data and condition, sorted by Reddit name |
| ImageLists.StylesheetImageList.ByUsageCount | utils/stylesheet/stylesheet_image_list.py:25-30 | same data and condition, sorted by usage count |
| ImageLists.StylesheetImageList.Desc | utils/stylesheet/stylesheet_image_list.py:32-37 | same data, condition and key, descending |
| ImageLists.StylesheetImageList.New | utils/stylesheet/stylesheet_image_list.py:46-51 | same data and sort, keeping the new images |
| ImageLists.StylesheetImageList.Unchanged | utils/stylesheet/stylesheet_image_list.py:53-58 | same data and sort, keeping the images that are not new |
| ImageLists.StylesheetImageList.Unnamed | utils/stylesheet/stylesheet_image_list.py:60-65 | same data and sort, keeping the images without a Reddit name |
| ImageLists.StylesheetImageList.Removed | utils/stylesheet/stylesheet_image_list.py:39-44 | same data and sort, keeping the images neither used nor replaced |
| ImageLists.StylesheetImageList.Append | utils/stylesheet/stylesheet_image_list.py:7 | the image joins the end of the data, nothing else changes |
| ImageLists.StylesheetImageList.Find | utils/stylesheet/stylesheet_image_list.py:126-140 | the result is the first admitted image, in insertion order, with every requested attribute, or none |
| StylesheetImages.StylesheetImage.LoadRemoteImageSize | utils/stylesheet/stylesheet_image.py:129-147 | the size is taken, stored and returned exactly when the HEAD reply is OK and its content type names an image; otherwise nothing changes and None is returned |
| StylesheetImages.StylesheetImage.UpdateUrlAndRemoteSize | utils/stylesheet/stylesheet_image.py:193-198 | the URL is set and the size attribute after probing is returned, which after a failed probe is the size the image already had |
| AlphaNames.AlphaNameSymbols | utils/stylesheet/stylesheet_image_mapper.py:9-11 | every character of a name is one of the 62 digits and ASCII letters |
| AlphaNames.AlphaValueOfName | utils/stylesheet/stylesheet_image_mapper.py:25-33 | reading a name back gives its number |
| AlphaNames.AlphaNameOfValue | utils/stylesheet/stylesheet_image_mapper.py:25-33 | every text over the 62 symbols is the name of its value, so naming is onto |
| AlphaNames.AlphaNameInjective | utils/stylesheet/stylesheet_image_mapper.py:25-33 | different numbers get different names |
| AlphaNames.AlphaNameLengthMonotone | utils/stylesheet/stylesheet_image_mapper.py:25-33 | a larger number never gets a shorter name |
| AlphaNames.AlphaNameExamples | utils/stylesheet/stylesheet_image_mapper.py:25-33 | 0 gives the empty name, 1 gives `0`, 62 gives `Z`, 63 gives `00`, 3906 gives `ZZ`, 3907 gives `000` |
| AlphaNames.AlphaBase | utils/stylesheet/stylesheet_image_mapper.py:25-33 | the `divmod(number - 1, 62)` loop builds the bijective base-62 name of the number |
| NameAllocation.ListedUnused | utils/stylesheet/stylesheet_image_mapper.py:106-116 | every listed number lies in 1..max_image_count and its name is not used yet |
| NameAllocation.ListedInOrder | utils/stylesheet/stylesheet_image_mapper.py:109 | numbers are listed from the highest down, so none twice |
| NameAllocation.ListedComplete | utils/stylesheet/stylesheet_image_mapper.py:106-116 | every number in 1..max_image_count whose name is unused is listed |
| NameAllocation.FirstFloor | utils/stylesheet/stylesheet_image_mapper.py:107-116 | the first listed name carries the starting floor unless a used name above it was reached while an update was pending |
| NameAllocation.NextFloor | utils/stylesheet/stylesheet_image_mapper.py:110-116 | a listed name's floor differs from the previous one's only when a used name lies between them, and then it is that used name's usage count |
| NameAllocation.FirstFloorIsZero | utils/stylesheet/stylesheet_image_mapper.py:107 | the first available name carries floor 0 |
| NameAllocation.AvailableUnused | utils/stylesheet/stylesheet_image_mapper.py:101-121 | every available name is the unused name of a number in 1..max_image_count |
| NameAllocation.AvailableComplete | utils/stylesheet/stylesheet_image_mapper.py:101-121 | the unused name of every number in 1..max_image_count is available |
| NameAllocation.AvailableDescending | utils/stylesheet/stylesheet_image_mapper.py:109 | the available names stand for numbers from the highest to the lowest |
| NameAllocation.AvailableShortestLast | utils/stylesheet/stylesheet_image_mapper.py:139 | read from the end, the available names are pairwise distinct and never get shorter |
| NameAllocation.AssignedCandidates | utils/stylesheet/stylesheet_image_mapper.py:139-149 | every name handed out is one of the candidates |
| NameAllocation.AssignedStep | utils/stylesheet/stylesheet_image_mapper.py:139-149 | one loop turn either skips the candidate (spending an extra name) or gives it to the first queued image |
| NameAllocation.AssignedInOrder | utils/stylesheet/stylesheet_image_mapper.py:139-149 | distinct shortest-first candidates give distinct shortest-first names |
| NameAllocation.AssignedAll | utils/stylesheet/stylesheet_image_mapper.py:136-149 | with as many extra names as candidates beyond the images, every image gets a name |
| NameAllocation.AssignmentFree | utils/stylesheet/stylesheet_image_mapper.py:123-149 | every name handed out is the unused name of a number in 1..max_image_count |
| NameAllocation.AssignmentInOrder | utils/stylesheet/stylesheet_image_mapper.py:123-149 | the names handed out are pairwise distinct, so the most used image gets the shortest |
| NameAllocation.AssignmentCount | utils/stylesheet/stylesheet_image_mapper.py:136-149 | when there are enough available names every unnamed image gets one |
| ImageMapper.SearchIsFirst | utils/stylesheet/stylesheet_image_list.py:126-140 | the entry search finds the earliest matching entry and misses only when none matches |
| ImageMapper.SearchIsFind | utils/stylesheet/stylesheet_image_list.py:126-140 | searching a list's entries finds the image `find` finds |
| ImageMapper.FoundEntry | utils/stylesheet/stylesheet_image_list.py:126-140 | the entry search yields the entry of the image `find` returns |
| ImageMapper.MatchOutcome | utils/stylesheet/stylesheet_image_mapper.py:35-99 | a Stored image in the outcome is one of the Stored entries and a Remote one one of the Remote entries |
| ImageMapper.MatchOutcomeStored | utils/stylesheet/stylesheet_image_mapper.py:57-63 | a Local image has no Stored image exactly when no admitted Stored entry has its filename; otherwise the first such entry is the one used |
| ImageMapper.MatchOutcomeRemote | utils/stylesheet/stylesheet_image_mapper.py:69-95 | given the Stored entry, there is no Remote image exactly when none agrees on name, URL and size; otherwise the first agreeing one is used, and the image is unchanged exactly when the hashes agree |
| ImageMapper.AfterMatchIdempotent | utils/stylesheet/stylesheet_image_mapper.py:35-99 | applying the same case twice leaves the Local image as applying it once |
| ImageMapper.AfterMatchFlags | utils/stylesheet/stylesheet_image_mapper.py:60-98 | after matching, the image is new unless unchanged, has no URL unless unchanged with a URL, takes the Stored name when a Remote image was found, and takes the remote size only when unchanged |
| ImageMapper.OutcomeAt | utils/stylesheet/stylesheet_image_mapper.py:166-167 | the case of the k-th matched image is that of matching it against the unchanged Stored and Remote entries |
| ImageMapper.MarkedByNext | utils/stylesheet/stylesheet_image_mapper.py:84-91 | after one more image, a Remote image is used or replaced exactly when it was already or that image's case marks it |
| ImageMapper.NameAfterLast | utils/stylesheet/stylesheet_image_mapper.py:148-149 | an image given a name holds the last name it was given |
| ImageMapper.NameAfterUntouched | utils/stylesheet/stylesheet_image_mapper.py:148-149 | an image not yet reached keeps its name |
| ImageMapper.FilenameOrder | utils/stylesheet/stylesheet_image_mapper.py:166 | the Local images are taken in filename order, without repeats |
| ImageMapper.UnnamedByUsage | utils/stylesheet/stylesheet_image_mapper.py:169 | the unnamed Local images are taken most used first |
| ImageMapper.FindEntry | utils/stylesheet/stylesheet_image_list.py:126-140 | `find` yields the first admitted matching entry, of an image in the list |
| ImageMapper.LookUp | utils/stylesheet/stylesheet_image_mapper.py:57-73 | the Stored image is found by filename and its Remote image by name, URL and size; no Remote lookup when there is no Stored image |
| ImageMapper.HandOutNames | utils/stylesheet/stylesheet_image_mapper.py:139-149 | the images named are the first ones of the queue, each given the name the allocation assigns, and the rest stay queued |
| ImageMapper.StylesheetImageMapper.constructor | utils/stylesheet/stylesheet_image_mapper.py:19-23 | the mapper starts with no used names and no unnamed images |
| ImageMapper.StylesheetImageMapper.MatchImage | utils/stylesheet/stylesheet_image_mapper.py:35-99 | the case taken is the specified one, the Local image ends in the state that case gives, its name is recorded with its usage count, and exactly the Remote image of the case is marked |
| ImageMapper.StylesheetImageMapper.Apply | utils/stylesheet/stylesheet_image_mapper.py:60-99 | marks new, replaced or used by the case, copies URL and size when unchanged, and records the Stored name with the usage count |
| ImageMapper.StylesheetImageMapper.PrepareAvailableRedditNames | utils/stylesheet/stylesheet_image_mapper.py:101-121 | the loop returns the available list the allocation specifies |
| ImageMapper.StylesheetImageMapper.AssignRedditNames | utils/stylesheet/stylesheet_image_mapper.py:123-149 | the queued images get the assigned names in order, and exactly the ones named leave the queue |
| ImageMapper.StylesheetImageMapper.MatchImages | utils/stylesheet/stylesheet_image_mapper.py:156-169 | each Local image ends as its case specifies, names and Remote marks are those of all cases in filename order, and the unnamed images join the queue most used first |
| ImageMapper.StylesheetImageMapper.MatchInOrder | utils/stylesheet/stylesheet_image_mapper.py:163-167 | the matching loop in filename order, with the same final states, names and marks |
| ImageMapper.StylesheetImageMapper.MatchAll | utils/stylesheet/stylesheet_image_mapper.py:166-167 | matching each image in turn gives every image its case's state, records all names and marks the Remote images |
| ImageMapper.StylesheetImageMapper.MatchNext | utils/stylesheet/stylesheet_image_mapper.py:166-167 | one turn matches the next image and leaves the others and the entry lists as they were |
| ImageMapper.StylesheetImageMapper.QueueUnnamed | utils/stylesheet/stylesheet_image_mapper.py:169 | the unnamed Local images, most used first, join the end of the queue |
| DataPageFormat.AppendHmac | utils/stylesheet/stylesheet_data.py:59-70 | the page is the content followed by a 96-character digest |
| DataPageFormat.ValidateDataPage | utils/stylesheet/stylesheet_data.py:163-183 | a page passes exactly when it ends with the HMAC of what comes before the last 96 characters (a page shorter than 96 characters has an empty content and digest slice) |
| DataPageFormat.AppendedPageValidates | utils/stylesheet/stylesheet_data.py:59-70 | a page built by `append_hmac` passes `validate_data_page` under the same key |
| DataPageFormat.ValidatedPageIsAppended | utils/stylesheet/stylesheet_data.py:163-183 | every page that passes is its content with the HMAC appended |
| DataPageFormat.RunLength | utils/stylesheet/stylesheet_data.py:128-134 | a greedy character-class run stops at the first character outside the class |
| DataPageFormat.FieldsOf | utils/stylesheet/stylesheet_data.py:129-135 | runs of the right classes, each followed by a literal outside its class, are read back run by run |
| DataPageFormat.LazyUrlScan | utils/stylesheet/stylesheet_data.py:128 | the lazy URL group skips characters that are neither `)` nor a newline |
| DataPageFormat.RowTailOf | utils/stylesheet/stylesheet_data.py:129-135 | the columns after the URL of a written row are read back as filename, remote size and MD5 |
| DataPageFormat.RowAtOf | utils/stylesheet/stylesheet_data.py:127-135 | one written row is read back whole, up to a following newline or the end |
| DataPageFormat.LastBreak | utils/stylesheet/stylesheet_data.py:126 | the table group ends at the last newline that follows a non-`\|` character within the table |
| DataPageFormat.TableAt | utils/stylesheet/stylesheet_data.py:126-138 | a table match starts with the `###Images` heading and its group ends with a newline |
| DataPageFormat.FindTable | utils/stylesheet/stylesheet_data.py:126-138 | the first table match lies inside the page |
| DataPageFormat.TableRoundTrip | utils/stylesheet/stylesheet_data.py:40-161 | reading the rows `_image_table_rows` writes gives back each row's filename, name, URL, MD5 and remote size, in order |
| DataPages.TableRowsOf | utils/stylesheet/stylesheet_data.py:49-57 | one row per image, in order |
| DataPages.StylesheetData.constructor | utils/stylesheet/stylesheet_data.py:27-38 | the names as given, three fresh, distinct, empty, plain lists, no CSS sizes |
| DataPages.StylesheetData.ImageTableRows | utils/stylesheet/stylesheet_data.py:40-57 | one row per image the Local list admits |
| DataPages.StylesheetData.ImageTableRowsOrdered | utils/stylesheet/stylesheet_data.py:40-57 | every row shows an admitted Local image, and the rows are in Reddit-name order |
| DataPages.StylesheetData.SummaryCountsLocalImages | utils/stylesheet/stylesheet_data.py:101-102 | the unchanged and added counts together count the Local images |
| DataPages.StylesheetData.CreateDataPage | utils/stylesheet/stylesheet_data.py:72-117 | the page is the filled template with its HMAC appended, so it passes validation |
| DataPages.StylesheetData.ParseDataPage | utils/stylesheet/stylesheet_data.py:119-161 | a page that fails validation is refused and changes nothing; a valid page without a table changes nothing; otherwise one Stored image per row, holding that row's values, is appended in order |
| Assets.ExtensionMatch | utils/stylesheet/stylesheet_assets.py:44-46 | an extension alternative matches only where the closing `")` follows it, and it is one of the configured extensions |
| Assets.NameAndExtension | utils/stylesheet/stylesheet_assets.py:45-46 | the filename group, backtracking from the longest name run, ends where the closing `")` follows |
| Assets.GroupShape | utils/stylesheet/stylesheet_assets.py:45-46 | what the filename group captures is a run of `[\w_-]` characters followed by an extension, as the pattern reads it |
| Assets.AfterDirectory | utils/stylesheet/stylesheet_assets.py:45 | the head `url("<dir>/` is consumed from the front of the text |
| Assets.ReferenceShape | utils/stylesheet/stylesheet_assets.py:45-46 | whatever the reference pattern captures has the shape of a filename the pattern accepts |
| Assets.FindReferences | utils/stylesheet/stylesheet_assets.py:27 | with the corrected pattern, every filename found has the shape that pattern accepts |
| Assets.ReferenceOf | utils/stylesheet/stylesheet_assets.py:44-48 | with the corrected pattern, a reference to a filename of the recognised shape is matched whole and captures exactly that filename |
| Assets.ReferencesOfText | utils/stylesheet/stylesheet_assets.py:27 | with the corrected pattern, CSS made of references yields exactly their filenames, in order |
| Assets.WrittenPatternRejectsShortName | utils/stylesheet/stylesheet_assets.py:44-46 | as written, `url("img/a.png")` is not recognised |
| Assets.CorrectedPatternAcceptsShortName | utils/stylesheet/stylesheet_assets.py:44-46 | with the name followed directly by a literal extension, `url("img/a.png")` captures `a.png` |
| Assets.WrittenPatternAcceptsUndottedName | utils/stylesheet/stylesheet_assets.py:44-46 | as written, `url("img/abcxpng")` is recognised, capturing `abcxpng` |
| Assets.CorrectedPatternRejectsUndottedName | utils/stylesheet/stylesheet_assets.py:44-46 | with the extension read literally, `url("img/abcxpng")` is not recognised |
| Assets.ClosingParen | utils/stylesheet/stylesheet_assets_validator.py:144-146 | the lazy `.*?\)` stops at the first `)` on the same line, and fails only when every later `)` has a newline before it |
| Assets.UrlCalls | utils/stylesheet/stylesheet_assets_validator.py:144-146 | every call found is `url(`, text without `)` or newline, then `)` |
| Assets.ClosingParenAt | utils/stylesheet/stylesheet_assets_validator.py:144-146 | the lazy scan ends at the first `)` when no newline precedes it |
| Assets.UrlCallsOfCalls | utils/stylesheet/stylesheet_assets_validator.py:144-146 | text made of calls is split back into exactly those calls |
| Assets.StylesheetAssets.constructor | utils/stylesheet/stylesheet_assets.py:57-64 | no CSS, no adapted CSS, no images directory, and a fresh, empty, plain image list |
| Assets.StylesheetAssets.CssSize | utils/stylesheet/stylesheet_assets.py:31-36 | the UTF-8 size lies between the character count and four times it, and equals the count exactly when the CSS is ASCII |
| Assets.StylesheetAssets.AdaptedCssSize | utils/stylesheet/stylesheet_assets.py:13-18 | the same bounds for the adapted CSS |
| Assets.StylesheetAssets.CssImageReferences | utils/stylesheet/stylesheet_assets.py:20-29 | the count is that of the corrected pattern, and every counted filename has the shape it accepts |
| Assets.StylesheetAssets.CssImageReferencesOf | utils/stylesheet/stylesheet_assets.py:20-29 | with the corrected pattern, CSS made of references counts each filename as often as it is referenced |
| Assets.StylesheetAssets.AddLocalImage | utils/stylesheet/stylesheet_assets.py:66-79 | an undecodable file raises the invalid-image error and adds nothing; otherwise one Local image of that file, with its reference count under the corrected pattern as usage count (0 when unreferenced), joins the end of the list |
| AssetsValidation.SavedTo | utils/stylesheet/stylesheet_assets_validator.py:109-134 | the error names the output file exactly when one is configured and not empty |
| AssetsValidation.Keys | utils/stylesheet/stylesheet_assets_validator.py:184-185 | the counter's keys are the distinct elements, without repeats, in first-occurrence order |
| AssetsValidation.Pop | utils/stylesheet/stylesheet_assets_validator.py:190-191 | popping a key removes exactly that key and keeps the others without repeats |
| AssetsValidation.ImageErrorsIff | utils/stylesheet/stylesheet_assets_validator.py:25-57 | the format, size and width errors are reported exactly when the format is not allowed, the file is too large or the image too wide; an image passes exactly when none is violated |
| AssetsValidation.ImagesErrorsEmpty | utils/stylesheet/stylesheet_assets_validator.py:174-175 | the per-image checks find nothing exactly when every image passes its own checks |
| AssetsValidation.ReferenceErrorsIff | utils/stylesheet/stylesheet_assets_validator.py:138-158 | at most one error per `url(...)` call, every error names a call in which the corrected reference pattern finds nothing, and every such call is named |
| AssetsValidation.ReferenceErrorsEmpty | utils/stylesheet/stylesheet_assets_validator.py:150-156 | the reference check finds nothing exactly when the corrected pattern finds a reference in every call |
| AssetsValidation.IntegrityErrorsIff | utils/stylesheet/stylesheet_assets_validator.py:179-206 | with distinct filenames, a filename is reported unreferenced exactly when the CSS does not reference it, and a reference is reported missing exactly when no image has that filename |
| AssetsValidation.IntegrityErrorsEmpty | utils/stylesheet/stylesheet_assets_validator.py:179-206 | with distinct filenames, the integrity check finds nothing exactly when the images and the references name the same files |
| AssetsValidation.FilenamesWith | utils/stylesheet/stylesheet_assets_validator.py:220 | the duplicate error lists as many filenames as images share that MD5 |
| AssetsValidation.DuplicateErrorsIff | utils/stylesheet/stylesheet_assets_validator.py:208-223 | every MD5 shared by two or more images is reported, every report is of such an MD5, and nothing is reported exactly when every MD5 is counted once |
| AssetsValidation.UniqueMd5sNoError | utils/stylesheet/stylesheet_assets_validator.py:208-223 | over the counter of the images' MD5s, nothing is reported exactly when the MD5s are distinct |
| AssetsValidation.StylesheetAssetsValidator.constructor | utils/stylesheet/stylesheet_assets_validator.py:19-23 | the validator starts with no errors |
| AssetsValidation.StylesheetAssetsValidator.ValidateImage | utils/stylesheet/stylesheet_assets_validator.py:25-57 | the image's errors, in order, join the end of the error list |
| AssetsValidation.StylesheetAssetsValidator.ValidateCssSize | utils/stylesheet/stylesheet_assets_validator.py:59-71 | one size error exactly when the adapted CSS is larger than the limit, and the validator itself is returned |
| AssetsValidation.StylesheetAssetsValidator.ValidateCssSyntax | utils/stylesheet/stylesheet_assets_validator.py:73-136 | one syntax error exactly when the service answered 200 with a count other than "0", naming the output file when one is configured; otherwise nothing changes |
| AssetsValidation.StylesheetAssetsValidator.ValidateImageReferences | utils/stylesheet/stylesheet_assets_validator.py:138-158 | the reference errors of the CSS's `url(...)` calls under the corrected pattern, in order, join the error list |
| AssetsValidation.StylesheetAssetsValidator.ValidateImages | utils/stylesheet/stylesheet_assets_validator.py:160-177 | a count error exactly when there are more images than allowed, then each image's errors in order |
| AssetsValidation.StylesheetAssetsValidator.ReportImages | utils/stylesheet/stylesheet_assets_validator.py:174-175 | the loop adds the errors of every image in order |
| AssetsValidation.StylesheetAssetsValidator.ValidateIntegrity | utils/stylesheet/stylesheet_assets_validator.py:179-206 | the integrity errors of the images' filenames against the filenames the corrected pattern finds join the error list |
| AssetsValidation.StylesheetAssetsValidator.ReportIntegrity | utils/stylesheet/stylesheet_assets_validator.py:189-204 | the two loops add the unreferenced errors in image order and then the missing ones for the references left |
| AssetsValidation.StylesheetAssetsValidator.ValidateUniqueness | utils/stylesheet/stylesheet_assets_validator.py:208-223 | one duplicate error per MD5 counted more than once, in first-occurrence order, joins the error list |
| AssetsValidation.StylesheetAssetsValidator.ReportDuplicates | utils/stylesheet/stylesheet_assets_validator.py:214-221 | the loop adds the duplicate errors of the keys in order |
| AssetsValidation.Filenames | utils/stylesheet/stylesheet_assets_validator.py:189-196 | the filenames of the images, in order |
| AssetsBuilding.SemicolonFrom | utils/stylesheet/stylesheet_assets_builder.py:43-48 | the lazy `.+?;` scan ends just after a `;` that lies beyond its start |
| AssetsBuilding.CharsetAt | utils/stylesheet/stylesheet_assets_builder.py:43-48 | a `@charset(.+?);` match at the start of the text covers the keyword, at least one character and the `;` |
| AssetsBuilding.FilterCss | utils/stylesheet/stylesheet_assets_builder.py:43-48 | removing the `@charset` rules never makes the CSS longer |
| AssetsBuilding.SemicolonAfterBody | utils/stylesheet/stylesheet_assets_builder.py:45 | the lazy group stops at the first `;` when no line break comes before it |
| AssetsBuilding.FilterCssRemovesRule | utils/stylesheet/stylesheet_assets_builder.py:43-48 | a leading `@charset <body>;` rule is removed and filtering goes on with the rest |
| AssetsBuilding.FilterCssWithoutCharset | utils/stylesheet/stylesheet_assets_builder.py:43-48 | CSS without `@charset` is left as it is |
| AssetsBuilding.FilterCssKeepsPrefix | utils/stylesheet/stylesheet_assets_builder.py:43-48 | text holding no `@` is kept in front of the filtered rest |
| AssetsBuilding.ReplaceAllKeepsPrefix | utils/stylesheet/stylesheet_assets_builder.py:75-77 | `str.replace` keeps a prefix in which no occurrence of the pattern starts |
| AssetsBuilding.ReplaceAllFirst | utils/stylesheet/stylesheet_assets_builder.py:75-77 | the first occurrence of the pattern is replaced and replacing goes on after it |
| AssetsBuilding.ReplaceAllAbsent | utils/stylesheet/stylesheet_assets_builder.py:75-77 | text without the pattern is left as it is |
| AssetsBuilding.RedditReference | utils/stylesheet/stylesheet_assets_builder.py:71-74 | the replacement is a `url(%%name%%)` reference |
| AssetsBuilding.Renames | utils/stylesheet/stylesheet_assets_builder.py:60-77 | one (filename, Reddit name) pair per image of the list, in list order |
| AssetsBuilding.AdaptTextSnoc | utils/stylesheet/stylesheet_assets_builder.py:60-77 | adapting for one more image replaces that image's references in the CSS adapted so far |
| AssetsBuilding.AdaptTextUnreferenced | utils/stylesheet/stylesheet_assets_builder.py:50-79 | CSS that refers to none of the images is not changed |
| AssetsBuilding.AdaptOneImage | utils/stylesheet/stylesheet_assets_builder.py:68-77 | the first exact `url("<dir>/<file>")` becomes the image's Reddit reference and the rest of the CSS is adapted after it |
| AssetsBuilding.ImageChecksPass | utils/stylesheet/stylesheet_assets_builder.py:216-236 | when filenames are distinct, the four image checks find nothing exactly when the count is within the limit, every image passes, the filenames are exactly the ones the corrected pattern finds, every `url(...)` holds a reference by that pattern and the MD5s are distinct |
| AssetsBuilding.Raised | utils/stylesheet/stylesheet_assets_builder.py:212-214 | ValidationException is raised exactly when errors were gathered, and it carries them |
| AssetsBuilding.StylesheetAssetsBuilder.constructor | utils/stylesheet/stylesheet_assets_builder.py:25-35 | the builder keeps config, assets and data, and the data's Local list becomes the assets' list |
| AssetsBuilding.StylesheetAssetsBuilder.CreateValidator | utils/stylesheet/stylesheet_assets_builder.py:37-41 | a fresh validator on the builder's config and assets with no errors yet |
| AssetsBuilding.StylesheetAssetsBuilder.Adapt | utils/stylesheet/stylesheet_assets_builder.py:50-79 | the adapted CSS is the original CSS with each image's references replaced, image by image in list order; the original CSS is kept |
| AssetsBuilding.StylesheetAssetsBuilder.MapImages | utils/stylesheet/stylesheet_assets_builder.py:152-162 | a fresh mapper on the builder's config is created and run |
| AssetsBuilding.StylesheetAssetsBuilder.ValidateImages | utils/stylesheet/stylesheet_assets_builder.py:216-236 | the raised errors are exactly those of the count, per-image, integrity, reference and duplicate checks, in that order, with references found by the corrected pattern |
| AssetsBuilding.StylesheetAssetsBuilder.ValidateCss | utils/stylesheet/stylesheet_assets_builder.py:198-214 | raises exactly when the adapted CSS is too large or, unless skipped, the syntax service reports errors; the errors come in that order |
| Base62Numerals.Base62 | build/util/base62.ts:7-11 | every numeral has at least one digit |
| Base62Numerals.Base62Canonical | build/util/base62.ts:5-11 | every numeral uses only the 62 digits and has no leading zero unless it is `0` |
| Base62Numerals.Base62SingleDigit | build/util/base62.ts:5-11 | numbers below 62 are one digit (`0` to `Z`), and 62 is `10` |
| Base62Numerals.Base62ValueOfNumeral | build/util/base62.ts:7-11 | reading a numeral back gives the number |
| Base62Numerals.Base62Injective | build/util/base62.ts:7-11 | different numbers give different numerals |
| Base62Numerals.Base62ValuePositive | build/util/base62.ts:5-11 | a canonical numeral that does not start with `0` stands for a positive number |
| Base62Numerals.Base62OfValue | build/util/base62.ts:7-11 | every canonical numeral is the numeral of its value |
| Base62Numerals.NumeralsBelowInclude | build/util/base62.ts:7-11 | the numeral of every smaller number is among the first n numerals |
| Base62Numerals.NumeralsBelowExclude | build/util/base62.ts:7-11 | no numeral of a number at or beyond n is among the first n numerals |
| RedditBackendNames.StripBom | build/backend/RedditBackend.ts:64-66 | a leading byte order mark is removed; any other text is unchanged |
| RedditBackendNames.StripBomOnce | build/backend/RedditBackend.ts:64-66 | only one leading mark is removed |
| RedditBackendNames.UploadTargets | build/backend/RedditBackend.ts:96-98 | exactly the keys the previous build had no name for are uploaded |
| RedditBackendNames.NextAvailableName | build/backend/RedditBackend.ts:46-54 | the numeral found is free and every smaller numeral is taken |
| RedditBackendNames.RedditBackend.constructor | build/backend/RedditBackend.ts:35 | the working copy starts as the image data of the previous build |
| RedditBackendNames.RedditBackend.MapImageName | build/backend/RedditBackend.ts:40-58 | a named key keeps its name and nothing changes; otherwise the key gets the least free numeral, which no key had, and only that entry is added |
| RedditBackendNames.RedditBackend.PruneOldImages | build/backend/RedditBackend.ts:78-92 | exactly the previous keys absent from the current images are deleted, with their names, and no other entry changes |
| RedditBackendNames.RedditBackend.UploadBuild | build/backend/RedditBackend.ts:59-105 | the byte order mark is stripped, old keys are pruned, and each new key, in image order, is uploaded under the name it now has in the working copy |
| BuildImages.Image.constructor | build/Image.ts:77-80 | the image keeps its name and target dimensions |
| BuildImages.ImageRegistry.constructor | build/Image.ts:21 | the registry starts empty |
| BuildImages.ImageRegistry.From | build/Image.ts:30-49 | a registered name with other dimensions is an error; with the same dimensions the registered image is returned; otherwise a new image with those dimensions is registered; the registry stays one image per name |
| BuildImages.ImageRegistry.Collect | build/Image.ts:55-57 | the collected images are exactly the registered ones |
| BuildImages.ImageRegistry.CollectOnePerName | build/Image.ts:23-29 | two collected images with the same name are the same image |
| BuildImages.IntText | build/Image.ts:115-117 | a number's text is not empty and starts with `-` exactly when it is negative |
| BuildImages.ImageKey | build/Image.ts:114-118 | the key starts with the source hash and is the hash alone exactly when no dimension is given |
| BuildImages.KeyTextsAgree | build/Image.ts:115-117 | the `_w`/`_h` suffixes can be read back from a key: equal keys have equal hashes and the same dimensions shown |
| BuildImages.ImageKeyInjective | build/Image.ts:108-118 | equal keys from hashes of the same length come from the same hash and the same effective dimensions, so a changed file or size changes the key |
| AutoCompression.AutoCompress | build/util/autoCompress.ts:7-52 | data within the threshold is returned as it is; otherwise the result is the encoding at a fitting quality whose next higher quality does not fit, and the error is thrown only when quality 1 does not fit |
| AutoCompression.SizeMonotone | build/util/autoCompress.ts:3-6 | if each quality step grows the size, a higher quality is never smaller |
| AutoCompression.HighestFittingQuality | build/util/autoCompress.ts:3-6 | with sizes growing in quality, the quality found is the highest that fits |
| AutoCompression.NoQualityFits | build/util/autoCompress.ts:43-49 | with sizes growing in quality, the error means that no quality fits |
| Text.Utf8LengthBounds | utils/stylesheet/stylesheet_assets.py:16-18 | the UTF-8 size of CSS lies between its length and four times it, and equals its length exactly for ASCII text |
| Text.Utf8LengthConcat | utils/stylesheet/stylesheet_assets.py:34-36 | the UTF-8 size of joined texts is the sum of their sizes |
| Text.ParseDecimalOfDecimal | utils/stylesheet/stylesheet_data.py:52-54 | a count written with `str` reads back with `int` as the same number |
| Text.DecimalInjective | utils/stylesheet/stylesheet_data.py:52-54 | different counts are written differently |

## Left out

- Network I/O has no model. The W3C syntax request of `validate_css_syntax` is not sent; its reply is the parameter `reply` of `ValidateCss` and `ValidateCssSyntax`. The HTTP HEAD of `load_remote_image_size` is likewise the parameter `reply`. `load_remote_images`, the Reddit API, and the fetch, upload and delete calls of `uploadBuild` are left out.
- Filesystem and subprocess work has no model: `build_css` (sass, csscompressor), `load_local_images` (directory listing), YAML `save`, and the template file read of `create_data_page`. The template fill and the clock are the parameters `fill` and `now`.
- `os.path.relpath` is not computed: the relative images directory is the parameter `relDir`.
- PIL decoding is not modelled: the decoder's answer (width, height, format, or failure) is a parameter of `OpenLocal`.
- MD5, SHA-1 and HMAC-SHA-384 are not computed: they are function parameters.
- `sharp` is not modelled: the JPEG encoder and the byte length are function parameters of `AutoCompress`.
- The resize step of `getFinalData` (build/Image.ts:128-146) is not modelled.
- The `functools.lru_cache` on `css_image_references` is not modelled; the references are recomputed from the CSS, which gives the same value as long as the CSS is not reassigned after the first read.
- Regex classes `\w` and `\d` are ASCII only. `re.I` is ASCII case folding. Unicode word characters and Unicode case folding are not modelled.
- Log messages are not modelled, and exception messages are datatypes rather than formatted strings.
- Every member that finds image references follows the corrected reference pattern (see "## Findings"), not the pattern as written in utils/stylesheet/stylesheet_assets.py:44-46. The two differ on `url("img/a.png")`, which the written pattern does not match, and on `url("img/abcxpng")`, which it matches as a reference to `abcxpng`. Each such member is listed on its own line below.
- Assets.FindReferences: the `findall` of utils/stylesheet/stylesheet_assets.py:27 is read with the corrected pattern; the source would find nothing in `url("img/a.png")` and find `abcxpng` in `url("img/abcxpng")`.
- Assets.SearchReference: the `search` of utils/stylesheet/stylesheet_assets_validator.py:150-156 is read with the corrected pattern, so it succeeds on `url("img/a.png")` and fails on `url("img/abcxpng")`, the reverse of the source.
- Assets.ReferenceOf: the whole-match property is proved for the corrected pattern only; the written pattern does not match a one-character name.
- Assets.ReferencesOfText: the round trip holds for the corrected `findall` only; the written one drops one-character names.
- Assets.StylesheetAssets.CssImageReferences: the counter is that of the corrected pattern; for `url("img/a.png")` it counts `a.png` once where the source counts nothing.
- Assets.StylesheetAssets.CssImageReferencesOf: the count is proved for the corrected pattern only; under the written pattern a one-character filename is not counted.
- Assets.StylesheetAssets.AddLocalImage: the usage count comes from the corrected counter, so a Local `a.png` referenced as `url("img/a.png")` gets 1 where the source gives 0.
- AssetsValidation.ReferenceErrorsIff: a call is reported when the corrected pattern finds nothing in it, so `url("img/a.png")` is not reported where the source reports it, and `url("img/abcxpng")` is reported where the source accepts it.
- AssetsValidation.ReferenceErrorsEmpty: no reference errors exactly when the corrected search succeeds on every call, which differs from the source on the same two inputs.
- AssetsValidation.StylesheetAssetsValidator.ValidateImageReferences: reports the calls the corrected pattern finds nothing in, which differs from the source on the same two inputs.
- AssetsValidation.StylesheetAssetsValidator.ValidateIntegrity: the referenced keys are those of the corrected pattern, so a Local `a.png` referenced as `url("img/a.png")` is not reported unreferenced, although the source reports it.
- AssetsBuilding.ImageCheckErrors: the integrity and reference parts use the corrected pattern.
- AssetsBuilding.ImageChecksPass: the characterisation is stated with the corrected pattern's references and search.
- AssetsBuilding.StylesheetAssetsBuilder.ValidateImages: with CSS `url("img/a.png")` and a Local `a.png` the source raises (the image is unreferenced and the call invalid), while the model raises nothing for them.
- ImageLists.KeyOf: a missing filename, Reddit name or usage count sorts as the empty key or 0, where Python raises TypeError (`len(None)` for `by_reddit_name`, or comparing with None). This cannot happen where the source sorts: Local images always carry a filename and a usage count, and `validate_images` caps the image count, so every image is named before `_image_table_rows` sorts by name.
- DataPageFormat.ShowText: a missing filename or MD5 is written as "None", where the source's `"|".join` raises TypeError. This is unreachable for the Local images the table is written from.
- AssetsValidation.IntegrityErrorsIff: stated for lists with distinct filenames only, which is how the directory listing builds the Local list.
- AssetsBuilding.ImageChecksPass: stated for lists with distinct filenames only, for the same reason.
- AssetsBuilding.StylesheetAssetsBuilder.MapImages: states only that a fresh mapper on the builder's config is created and run. What matching and naming do to the images is stated by `ImageMapper.StylesheetImageMapper.MatchImages` and `AssignRedditNames`; chaining those two postconditions through the mapper's allocation is not stated.
- AssetsBuilding.StylesheetAssetsBuilder.Adapt, ValidateImages and the validator methods require the assets' Local list to be plain (no filter or sort on the list object itself), which is how the builder creates it.
- ImageMapper.StylesheetImageMapper.AssignRedditNames: the queue is popped as a local sequence and written back to the field once at the end, instead of popping the field in each turn.
- NameAllocation: a negative `extra_names` counts as truthy, so names can still be skipped when unnamed images outnumber available ones; this is modelled as written and not reported as a finding, because `validate_images` caps the image count before mapping.
- RedditBackendNames.RedditBackend.UploadBuild: the `Promise.all` interleaving is not modelled. Pruning runs first and uploads are named one by one in image order. The error thrown for an unnamed image cannot happen, because every name is a non-empty numeral.
- BuildImages.ImageRegistry.Collect: returns a set rather than an array; `Object.values` order is not modelled.
- TypeScript numbers are modelled as unbounded integers. The truthiness of a dimension is "present and not zero"; NaN is not modelled.
- AutoCompression.AutoCompress: it states that the result fits and that the next higher quality does not fit, which is a local maximum. That it is the highest fitting quality is proved only when sizes grow with quality (`HighestFittingQuality`), since the encoder is arbitrary here.
- The memoized promise getters of `Image.ts` and the async plumbing are not modelled; each value is computed once as a plain value.

## Findings

| source | as written | input that shows it | evidently intended | confidence | as-written member | corrected member |
|---|---|---|---|---|---|---|
| utils/stylesheet/stylesheet_assets.py:44-46 | the unescaped `.` between the name group and the extension matches one extra character, although each configured extension already starts with its dot | `url("img/a.png")` with extension `.png`: the name `a` is followed by `.png`, with no character left for the extra `.`, so no reference is found | the name followed directly by a configured extension, read literally | not executed | Assets.WrittenPatternRejectsShortName | Assets.CorrectedPatternAcceptsShortName |
| utils/stylesheet/stylesheet_assets.py:44-46 | the unescaped dots of the pattern, including the dot inside each extension, match any character | `url("img/abcxpng")` with extension `.png` is read as a reference to a file named `abcxpng`, which has no extension | only names that end in a real `.png` count as references | not executed | Assets.WrittenPatternAcceptsUndottedName | Assets.CorrectedPatternRejectsUndottedName |
