# Anchorer widgets and utilities, modelled in Dafny

Anchorer is a collection of Android helpers:

- list, scroll and pager widgets that report when the user reaches a border or a marker;
- a pinned section header;
- a pull-to-refresh list;
- a tabs container and an advert slider driven by a ViewPager;
- an LRU bitmap memory cache;
- string, encoding, date, package and logging utilities.

The repository ships two libraries, `lib_anchorer` and `library`, and several classes exist in both.

This project models the deterministic logic inside those helpers:

- Each source file becomes one Dafny module.
- A class whose methods update fields becomes a Dafny `class` with those fields and `modifies` frames.
- Pure helpers become functions with lemmas.
- Loops in the source become methods with loop invariants, each proved against a specification function.
- Views, bitmaps, motion events and platform services are replaced by the values the code reads from them.
- Listener callbacks become an appended event log, so "fires exactly on a transition" can be stated and proved.
- Java semantics live in `JavaLang`: `/` and `%` truncate, `int` arithmetic wraps at 32 bits, and a thrown exception is an `Outcome` value.
- A static field that every instance shares is one object that each instance is given.
- Strings the code measures, cuts or escapes are `JString`, sequences of UTF-16 code units, as Java counts them. Other strings are Dafny strings: the titles, URIs and links the code only stores, compares or passes on, and the text it builds from digits and fixed words.
- Where two library copies differ only slightly, one Dafny member models both. Its row cites one copy and names the other.

Paths in the table are relative to the repository root. `lib_anchorer/...` and `library/...` are the two libraries' `src/main/java/com/anchorer/lib` trees.

## Model

| member | source | states |
|---|---|---|
| LibConst.TimeSpansComposed | library/src/main/java/com/anchorer/lib/consts/LibConst.java:24-28 | an hour is 60 minutes (3600 s), a day 24 hours (86400 s), a month 30 days, a year 12 months, i.e. 360 days and not 365 |
| LibConst.TimeSpansOrderedAndInRange | library/src/main/java/com/anchorer/lib/consts/LibConst.java:24-28 | the spans strictly increase and the year, 31104000 s, fits in a Java int, so the int-typed products do not overflow |
| LibConst.WebTimeouts | library/src/main/java/com/anchorer/lib/consts/LibConst.java:12-13 | connection and socket timeouts are both 15000 ms |
| Logger.SeverityValue | lib_anchorer/src/main/java/com/anchorer/lib/utils/L.java:14-19 | v/d/i/w/e have the platform severities 2..6 |
| Logger.EmitsMonotone | lib_anchorer/src/main/java/com/anchorer/lib/utils/L.java:51-99 | a message that passes the threshold would also pass at any higher severity |
| Logger.ThresholdExtremes | lib_anchorer/src/main/java/com/anchorer/lib/utils/L.java:12-49 | the initial threshold 0 and VERBOSE let every severity through; the disabled threshold lets none through |
| Logger.L.constructor | lib_anchorer/src/main/java/com/anchorer/lib/utils/L.java:12 | the threshold starts at 0, so everything is logged |
| Logger.L.EnableLogging | lib_anchorer/src/main/java/com/anchorer/lib/utils/L.java:25-27 | enabling with a level sets the threshold to it |
| Logger.L.EnableVerbose | lib_anchorer/src/main/java/com/anchorer/lib/utils/L.java:32-34 | the no-argument enable sets VERBOSE, which emits every severity |
| Logger.L.SetLoggingLevel | lib_anchorer/src/main/java/com/anchorer/lib/utils/L.java:40-42 | sets the threshold, like enabling |
| Logger.L.DisableLogging | lib_anchorer/src/main/java/com/anchorer/lib/utils/L.java:47-49 | the threshold becomes the silencing level; no severity is emitted |
| Logger.L.Log | lib_anchorer/src/main/java/com/anchorer/lib/utils/L.java:51-99 | a message is forwarded exactly when the threshold is at or below its severity |
| MemoryCache.SizeInBytes | lib_anchorer/src/main/java/com/anchorer/lib/utils/image/MemoryCache.java:111-115 | null is 0 bytes; otherwise rowBytes * height with int wrap-around, equal to the product when it fits in an int |
| MemoryCache.EvictCountSpec | lib_anchorer/src/main/java/com/anchorer/lib/utils/image/MemoryCache.java:83-94 | the eviction loop removes the k oldest entries, the counter drops by exactly their sizes, it ends at or under the limit unless the map is empty, and no shorter prefix would have sufficed |
| MemoryCache.CheckSizeFits | lib_anchorer/src/main/java/com/anchorer/lib/utils/image/MemoryCache.java:83-94 | after checkSize the counter is at most the limit or the map is empty; a cache already under the limit is unchanged |
| MemoryCache.EvictsOldestFirst | lib_anchorer/src/main/java/com/anchorer/lib/utils/image/MemoryCache.java:85-92 | what checkSize keeps is a suffix of the access order, for the first prefix that brings the counter under the limit |
| MemoryCache.CheckSizeAccounted | lib_anchorer/src/main/java/com/anchorer/lib/utils/image/MemoryCache.java:83-94 | eviction keeps the counter equal to the sum of the stored sizes and the ids distinct |
| MemoryCache.PutAccounted | lib_anchorer/src/main/java/com/anchorer/lib/utils/image/MemoryCache.java:65-72 | put subtracts the replaced entry before adding the new one, so the counter stays the sum of the stored sizes |
| MemoryCache.ClearAccounted | lib_anchorer/src/main/java/com/anchorer/lib/utils/image/MemoryCache.java:99-106 | clear empties the map and zeroes the counter |
| MemoryCache.PutNewestSurvives | lib_anchorer/src/main/java/com/anchorer/lib/utils/image/MemoryCache.java:65-78 | the entry just put is the newest, so it is the last one evicted: if anything survives, it does |
| MemoryCache.GetAfterPut | lib_anchorer/src/main/java/com/anchorer/lib/utils/image/MemoryCache.java:42-78 | a get right after a put returns the bitmap put, unless eviction emptied the cache |
| MemoryCache.GetSpec | lib_anchorer/src/main/java/com/anchorer/lib/utils/image/MemoryCache.java:42-51 | a missing id gives null and changes nothing; a present id gives its bitmap and moves that entry to most-recently-used, keeping the same entries |
| MemoryCache.RemoveKeepsCounter | lib_anchorer/src/main/java/com/anchorer/lib/utils/image/MemoryCache.java:57-60 | remove deletes the entry but leaves the counter unchanged |
| MemoryCache.RemoveOvercounts | lib_anchorer/src/main/java/com/anchorer/lib/utils/image/MemoryCache.java:57-60 | a concrete cache whose counter exceeds the sum of its entries after a remove |
| MemoryCache.MemoryCache.constructor | lib_anchorer/src/main/java/com/anchorer/lib/utils/image/MemoryCache.java:31-33 | an empty cache with the counter at 0 and the limit a quarter of the maximum heap, truncated |
| MemoryCache.MemoryCache.Get | lib_anchorer/src/main/java/com/anchorer/lib/utils/image/MemoryCache.java:42-51 | the object follows the get specification and keeps its invariant |
| MemoryCache.MemoryCache.Remove | lib_anchorer/src/main/java/com/anchorer/lib/utils/image/MemoryCache.java:57-60 | the object follows the remove specification |
| MemoryCache.MemoryCache.Put | lib_anchorer/src/main/java/com/anchorer/lib/utils/image/MemoryCache.java:65-78 | returns the bitmap given, follows the put specification, and keeps the counter accounted |
| MemoryCache.MemoryCache.CheckSize | lib_anchorer/src/main/java/com/anchorer/lib/utils/image/MemoryCache.java:83-94 | the iterator-removal loop computes exactly the eviction specification |
| MemoryCache.MemoryCache.Clear | lib_anchorer/src/main/java/com/anchorer/lib/utils/image/MemoryCache.java:99-106 | empties the map and zeroes the counter |
| MemoryCache.MemoryCache.GetSize | lib_anchorer/src/main/java/com/anchorer/lib/utils/image/MemoryCache.java:117-119 | returns the counter |
| StringUtils.GetSubString | lib_anchorer/src/main/java/com/anchorer/lib/utils/StringUtils.java:24-29 | null stays null; a negative length throws; otherwise a prefix of the string, min(length, length()) UTF-16 code units long |
| StringUtils.SubStringLimits | lib_anchorer/src/main/java/com/anchorer/lib/utils/StringUtils.java:24-29 | a length of at least the string's code-unit length gives the string back; cutting twice is cutting once to the smaller length |
| StringUtils.SubStringSplitsSurrogatePair | lib_anchorer/src/main/java/com/anchorer/lib/utils/StringUtils.java:24-29 | a character outside the Basic Multilingual Plane cut to length 1 leaves only its high surrogate |
| StringUtils.GetDataStr | lib_anchorer/src/main/java/com/anchorer/lib/utils/StringUtils.java:54-68 | the step-by-step concatenation builds year-field(month)-field(day) |
| StringUtils.FieldShape | lib_anchorer/src/main/java/com/anchorer/lib/utils/StringUtils.java:54-68 | a field reads back as its value; 1..99 take two characters; 0, negatives and 10 up are unpadded |
| StringUtils.DataStrIsIsoDate | lib_anchorer/src/main/java/com/anchorer/lib/utils/StringUtils.java:54-68 | a real date with a four-digit year prints as ten characters yyyy-MM-dd whose fields read back as the inputs |
| StringUtils.VelocityTruncates | lib_anchorer/src/main/java/com/anchorer/lib/utils/StringUtils.java:80-87 | at 1024 KB/s and above the MB figure is truncated to tenths, and the true speed lies in [shown, shown + 0.1) |
| StringUtils.VelocityKilobytes | lib_anchorer/src/main/java/com/anchorer/lib/utils/StringUtils.java:80-87 | below 1024 the text is the number itself followed by KB/s |
| StringUtils.GetDownloadVelocity | lib_anchorer/src/main/java/com/anchorer/lib/utils/StringUtils.java:80-87 | the text ends in KB/s exactly below 1024 KB/s, and in MB/s from there on |
| StringUtils.StringArrayFromIntArray | lib_anchorer/src/main/java/com/anchorer/lib/utils/StringUtils.java:95-101 | null throws; otherwise a new array of the same length with each element's decimal text |
| StringUtils.StringArrayReadsBack | lib_anchorer/src/main/java/com/anchorer/lib/utils/StringUtils.java:95-101 | every produced string parses back to its int |
| EncodeUtils.Md5 | lib_anchorer/src/main/java/com/anchorer/lib/utils/EncodeUtils.java:30-47 | null throws; otherwise the hex text of the digest; the library copy, utils/EncodeUtils.java lines 36-53, behaves the same |
| EncodeUtils.Sha1 | lib_anchorer/src/main/java/com/anchorer/lib/utils/EncodeUtils.java:53-80 | null gives ""; otherwise the hex text of the digest, with one-digit bytes padded by a 0 |
| EncodeUtils.ByteHexShape | lib_anchorer/src/main/java/com/anchorer/lib/utils/EncodeUtils.java:41-45 | each byte prints as two hex digits that read back as the signed byte |
| EncodeUtils.HexRoundTrip | lib_anchorer/src/main/java/com/anchorer/lib/utils/EncodeUtils.java:30-47 | the hex text has two characters per byte and parses back to the digest |
| EncodeUtils.DigestHexLengths | lib_anchorer/src/main/java/com/anchorer/lib/utils/EncodeUtils.java:30-80 | an MD5 digest gives 32 characters and an SHA-1 digest 40 |
| EncodeUtils.StringToUnicode | lib_anchorer/src/main/java/com/anchorer/lib/utils/EncodeUtils.java:153-159 | the builder loop produces the concatenated \\u escapes of every code unit, in order; the library copy, utils/EncodeUtils.java lines 126-132, behaves the same |
| EncodeUtils.CodeUnitHexLength | lib_anchorer/src/main/java/com/anchorer/lib/utils/EncodeUtils.java:153-159 | an escape carries at most four hex digits, exactly four iff the unit is at least 0x1000 |
| EncodeUtils.Escape1Injective | lib_anchorer/src/main/java/com/anchorer/lib/utils/EncodeUtils.java:153-159 | different units have different escapes |
| EncodeUtils.UnicodeToString | lib_anchorer/src/main/java/com/anchorer/lib/utils/EncodeUtils.java:167-176 | the match loop computes the decoding function: matches found in the original text, each replacing every copy in the current text; the library copy, utils/EncodeUtils.java lines 140-149, behaves the same |
| EncodeUtils.UnicodeToStringNoEscape | lib_anchorer/src/main/java/com/anchorer/lib/utils/EncodeUtils.java:167-176 | text without a \\u and four hex digits is returned unchanged |
| EncodeUtils.RoundTrip | lib_anchorer/src/main/java/com/anchorer/lib/utils/EncodeUtils.java:153-176 | decoding the escaped text gives the string back iff every unit is at least 0x1000; otherwise the result is strictly longer; the library copy, utils/EncodeUtils.java lines 126-149, behaves the same |
| SystemUtils.LastUpdateTimeHintCases | lib_anchorer/src/main/java/com/anchorer/lib/utils/SystemUtils.java:346-355 | the four hints partition the intervals: up to 60 s just now, then whole minutes 1..59, whole hours 1..23, and long ago from a day on |
| SystemUtils.LastUpdateTimeHintReadsBack | lib_anchorer/src/main/java/com/anchorer/lib/utils/SystemUtils.java:346-355 | between a minute and a day the hint is a count with its unit, and the count reads back |
| SystemUtils.LastUpdateTimeHint | lib_anchorer/src/main/java/com/anchorer/lib/utils/SystemUtils.java:346-355 | the hint is "just now" exactly for intervals of at most a minute, and "long ago" exactly from a day on |
| SystemUtils.GetDateOfToday | lib_anchorer/src/main/java/com/anchorer/lib/utils/SystemUtils.java:143-157 | MM-dd and yyyy-MM-dd use the 0-based calendar month plus one and pad fields below 10; any other format gives "" |
| SystemUtils.Pad2Shape | lib_anchorer/src/main/java/com/anchorer/lib/utils/SystemUtils.java:143-157 | fields 0..99 print as two digits that read back; a negative gets a 0 before the minus |
| SystemUtils.TodayAgreesWithDataStr | lib_anchorer/src/main/java/com/anchorer/lib/utils/SystemUtils.java:143-157 | for a real date the yyyy-MM-dd text equals the date text of StringUtils; the paddings differ only at zero |
| SystemUtils.KeptMembers | lib_anchorer/src/main/java/com/anchorer/lib/utils/SystemUtils.java:375-398 | the kept packages are those in the input that are not system apps, or all of them when system apps are included |
| SystemUtils.GetAppInfoList | lib_anchorer/src/main/java/com/anchorer/lib/utils/SystemUtils.java:375-398 | the loop builds an AppInfo for each kept package, in order |
| SystemUtils.GetInstalledPackageList | lib_anchorer/src/main/java/com/anchorer/lib/utils/SystemUtils.java:407-415 | the loop lists the names of the non-system packages, in order |
| SystemUtils.KeptSpec | lib_anchorer/src/main/java/com/anchorer/lib/utils/SystemUtils.java:375-415 | including system apps keeps everything; excluding them keeps only user apps; filtering twice is filtering once |
| SystemUtils.PackageListMatchesAppList | lib_anchorer/src/main/java/com/anchorer/lib/utils/SystemUtils.java:375-415 | the package-name list equals the names of the app list without system apps |
| SystemUtils.UuidPacking | lib_anchorer/src/main/java/com/anchorer/lib/utils/SystemUtils.java:215-227 | the low half holds the serial hash in its low word and, only when that hash is non-negative, the device hash in its high word |
| SystemUtils.UniqueUuidBits | lib_anchorer/src/main/java/com/anchorer/lib/utils/SystemUtils.java:215-227 | the two halves as written: the Android id hash widened to long, and the device hash shifted up and OR-ed with the serial hash widened with its sign; what they hold is stated by UuidPacking |
| SystemUtils.UniqueUuidBitsMasked | lib_anchorer/src/main/java/com/anchorer/lib/utils/SystemUtils.java:225 | the low half with the serial hash masked to 32 bits, as evidently intended; what it holds is stated by MaskedUuidKeepsBoth |
| SystemUtils.UuidCollision | lib_anchorer/src/main/java/com/anchorer/lib/utils/SystemUtils.java:225 | as written, two devices with different device ids collide when the serial hash is negative |
| SystemUtils.MaskedUuidKeepsBoth | lib_anchorer/src/main/java/com/anchorer/lib/utils/SystemUtils.java:225 | with the serial hash masked to 32 bits, both hashes are recoverable from the low half |
| ImageUtils.DecodeScale | lib_anchorer/src/main/java/com/anchorer/lib/utils/image/ImageUtils.java:150-183 | the scale is a power of two, stops once a halved side would fall below the required size, and every doubling taken kept both sides at least that size |
| ImageUtils.ScaleIsLargest | lib_anchorer/src/main/java/com/anchorer/lib/utils/image/ImageUtils.java:160-168 | any larger power of two leaves a side below the required size, so the chosen scale is the largest allowed |
| ImageUtils.DisplayedImages.constructor | lib_anchorer/src/main/java/com/anchorer/lib/utils/image/ImageUtils.java:92 | the static record starts out empty when the class is loaded |
| ImageUtils.AnimateFirstDisplayListener.constructor | lib_anchorer/src/main/java/com/anchorer/lib/utils/image/ImageUtils.java:90-93 | a new listener uses the one shared record of displayed URIs as it stands, without clearing it |
| ImageUtils.AnimateFirstDisplayListener.OnLoadingComplete | lib_anchorer/src/main/java/com/anchorer/lib/utils/image/ImageUtils.java:94-103 | a successful load into an ImageView adds a URI new to the shared record and fades it in only then; a failed load changes nothing; another kind of view throws; the record never holds a URI twice |
| ImageUtils.FadesInOncePerProcess | lib_anchorer/src/main/java/com/anchorer/lib/utils/image/ImageUtils.java:90-103 | a URI shown through one listener is not faded in again through a listener created later, since both use the shared record |
| ImageUtils.Displayed | lib_anchorer/src/main/java/com/anchorer/lib/utils/image/ImageUtils.java:90-104 | the record is the distinct URIs loaded successfully into image views |
| ImageUtils.DisplayAll | lib_anchorer/src/main/java/com/anchorer/lib/utils/image/ImageUtils.java:90-104 | display calls run one after another, each with its own listener on the shared record, leave exactly the record Displayed describes |
| Scrolling.ListSide | lib_anchorer/src/main/java/com/anchorer/lib/view/CompatibleListView.java:130-151 | bottom iff first + visible >= total, else top iff first == 0, else middle |
| Scrolling.Enter | lib_anchorer/src/main/java/com/anchorer/lib/view/CompatibleListView.java:130-151 | a report moves the detector to the reported side and calls back exactly on arriving at top or bottom from another side |
| Scrolling.Run | lib_anchorer/src/main/java/com/anchorer/lib/view/CompatibleListView.java:130-151 | after a series of reports the detector is at the last side reported, with at most one callback per report |
| Scrolling.Callbacks | lib_anchorer/src/main/java/com/anchorer/lib/view/CompatibleListView.java:130-151 | each crossing becomes the listener's top or bottom call, in order; the marker detector (lines 156-174) and the detectors of OnBorderListView and CompatibleScrollView report the same way |
| Scrolling.ReportDependsOnPrevious | lib_anchorer/src/main/java/com/anchorer/lib/view/CompatibleListView.java:130-151 | the callbacks of each report depend only on that report and the one before it |
| Scrolling.RepeatIsSilent | lib_anchorer/src/main/java/com/anchorer/lib/view/CompatibleListView.java:130-151 | the same side reported twice in a row calls back at most once |
| Scrolling.StayingPutIsSilent | lib_anchorer/src/main/java/com/anchorer/lib/view/CompatibleListView.java:130-151 | reports of the side the detector is already on never call back |
| Scrolling.MiddleRearms | lib_anchorer/src/main/java/com/anchorer/lib/view/CompatibleListView.java:156-174 | a top or bottom report right after a middle one always calls back, so a callback can repeat without the other in between |
| Scrolling.XTravel | lib_anchorer/src/main/java/com/anchorer/lib/view/CompatibleListView.java:204-229 | the horizontal distance is the sum of the absolute horizontal steps since DOWN |
| Scrolling.YTravel | lib_anchorer/src/main/java/com/anchorer/lib/view/CompatibleListView.java:204-229 | the vertical distance is the sum of the absolute vertical steps since DOWN |
| Scrolling.TravelCoversDisplacement | lib_anchorer/src/main/java/com/anchorer/lib/view/CompatibleListView.java:204-229 | the accumulated travel is at least the net displacement |
| Scrolling.NetSwipeIsHorizontal | lib_anchorer/src/main/java/com/anchorer/lib/view/CompatibleListView.java:204-229 | a gesture whose net sideways displacement exceeds its vertical travel is horizontal |
| Scrolling.TruncateReal | library/src/main/java/com/anchorer/lib/view/CompatibleRefreshableListView.java:160 | the (int) cast truncates toward zero |
| CompatibleListView.MarkerSide | lib_anchorer/src/main/java/com/anchorer/lib/view/CompatibleListView.java:156-174 | above the marker item is top and below it bottom; at the marker item the child's top distance decides, and a missing child counts as 0; never middle |
| CompatibleListView.CompatibleListView.constructor | lib_anchorer/src/main/java/com/anchorer/lib/view/CompatibleListView.java:32-48 | starts at the bottom, above the marker, horizontal, with no listeners |
| CompatibleListView.CompatibleListView.InitOnBorderListener | lib_anchorer/src/main/java/com/anchorer/lib/view/CompatibleListView.java:95-98 | switches border detection on with the listener; nothing else changes |
| CompatibleListView.CompatibleListView.InitOnSpecifiedHeightListener | lib_anchorer/src/main/java/com/anchorer/lib/view/CompatibleListView.java:99-104 | switches marker detection on with the listener and records the marker position and distance; nothing else changes |
| CompatibleListView.CompatibleListView.InitOnScrollStateChangeListener | lib_anchorer/src/main/java/com/anchorer/lib/view/CompatibleListView.java:105-107 | installs the state listener; nothing else changes |
| CompatibleListView.CompatibleListView.OnScrollStateChanged | lib_anchorer/src/main/java/com/anchorer/lib/view/CompatibleListView.java:117-120 | records the state and forwards it to the listener, if any |
| CompatibleListView.CompatibleListView.OnScroll | lib_anchorer/src/main/java/com/anchorer/lib/view/CompatibleListView.java:123-175 | each enabled detector moves as Enter says and its listener hears exactly the crossings; the marker state is never middle |
| CompatibleListView.CompatibleListView.DetectBorder | lib_anchorer/src/main/java/com/anchorer/lib/view/CompatibleListView.java:130-151 | the border detector step of a scroll report |
| CompatibleListView.CompatibleListView.DetectSpecified | lib_anchorer/src/main/java/com/anchorer/lib/view/CompatibleListView.java:156-174 | the marker detector step of a scroll report |
| CompatibleListView.CompatibleListView.ScrolledToSpecifiedTop | lib_anchorer/src/main/java/com/anchorer/lib/view/CompatibleListView.java:181-187 | reports reaching the top side of the marker |
| CompatibleListView.CompatibleListView.ScrolledToSpecifiedBottom | lib_anchorer/src/main/java/com/anchorer/lib/view/CompatibleListView.java:192-198 | reports reaching the bottom side of the marker |
| CompatibleListView.CompatibleListView.OnInterceptTouchEvent | lib_anchorer/src/main/java/com/anchorer/lib/view/CompatibleListView.java:204-229 | DOWN starts a gesture; MOVE accumulates travel, the gesture is horizontal iff horizontal travel exceeds vertical, and a horizontal gesture is not intercepted |
| OnBorderListView.OnBorderListView.constructor | library/src/main/java/com/anchorer/lib/view/OnBorderListView.java:28 | starts at the bottom with no listeners |
| OnBorderListView.OnBorderListView.InitInterface | library/src/main/java/com/anchorer/lib/view/OnBorderListView.java:59-70 | the host becomes each listener whose interface it implements; others stay as they were |
| OnBorderListView.OnBorderListView.OnScrollStateChanged | library/src/main/java/com/anchorer/lib/view/OnBorderListView.java:80-84 | the scroll listener, if any, hears of the state change |
| OnBorderListView.OnBorderListView.OnScroll | library/src/main/java/com/anchorer/lib/view/OnBorderListView.java:87-115 | every report moves the border state as Enter says, whether or not anyone listens; listeners hear the scroll and the crossings |
| CompatibleScrollView.BorderSide | library/src/main/java/com/anchorer/lib/view/CompatibleScrollView.java:93-115 | bottom iff there is a content child that fits within scrollY + height, else top iff scrollY is 0, else middle |
| CompatibleScrollView.MarkerSide | library/src/main/java/com/anchorer/lib/view/CompatibleScrollView.java:120-141 | top below the marker height, bottom above it, middle exactly at it |
| CompatibleScrollView.Sides | library/src/main/java/com/anchorer/lib/view/CompatibleScrollView.java:120-141 | the marker side of each offset, in order |
| CompatibleScrollView.ExactStopRefires | library/src/main/java/com/anchorer/lib/view/CompatibleScrollView.java:120-141 | offsets that stay above the marker are silent, but stopping exactly at the marker and going back fires scrolledToTop again |
| CompatibleScrollView.CompatibleScrollView.constructor | library/src/main/java/com/anchorer/lib/view/CompatibleScrollView.java:29-54 | top for both detectors, both detectors off, interception on |
| CompatibleScrollView.CompatibleScrollView.InitOnBorderListener | library/src/main/java/com/anchorer/lib/view/CompatibleScrollView.java:64-71 | border detection is switched on first; a host that does not implement the listener throws ClassCast |
| CompatibleScrollView.CompatibleScrollView.InitOnScrolledToSpecificHeightListener | library/src/main/java/com/anchorer/lib/view/CompatibleScrollView.java:72-81 | marker detection is switched on; the height and listener are recorded unless the cast throws |
| CompatibleScrollView.CompatibleScrollView.OnScrollChanged | library/src/main/java/com/anchorer/lib/view/CompatibleScrollView.java:84-88 | runs the border then the marker detector, each only when switched on |
| CompatibleScrollView.CompatibleScrollView.DoOnBorderListener | library/src/main/java/com/anchorer/lib/view/CompatibleScrollView.java:93-115 | the border detector moves as Enter says and its listener hears exactly the crossings |
| CompatibleScrollView.CompatibleScrollView.DoOnScrolledToSpecificHeightListener | library/src/main/java/com/anchorer/lib/view/CompatibleScrollView.java:120-141 | the marker detector moves as Enter says and its listener hears exactly the crossings |
| CompatibleScrollView.CompatibleScrollView.OnInterceptTouchEvent | library/src/main/java/com/anchorer/lib/view/CompatibleScrollView.java:147-172 | with scrolling support off nothing is intercepted or tracked; otherwise a horizontal gesture is not intercepted |
| CompatibleScrollView.CompatibleScrollView.SetSupportScrolling | library/src/main/java/com/anchorer/lib/view/CompatibleScrollView.java:174-176 | sets the flag |
| PinnedHeaderListView.PushedUp | library/src/main/java/com/anchorer/lib/view/CompatiblePinnedHeaderListView.java:170-189 | a bottom at or below the header height keeps the header at 0, opaque; above it the header moves up by the difference with alpha 255*bottom/height; a zero height there divides by zero |
| PinnedHeaderListView.PushedUpFades | library/src/main/java/com/anchorer/lib/view/CompatiblePinnedHeaderListView.java:170-189 | while the child's bottom is inside the header, y is in [-height, 0) and alpha is the covered fraction of 255 rounded down, below 255 |
| PinnedHeaderListView.MissingChildHidesHeader | library/src/main/java/com/anchorer/lib/view/CompatiblePinnedHeaderListView.java:170-189 | with no first child the header sits entirely above the list, transparent |
| PinnedHeaderListView.PushedUpMonotone | library/src/main/java/com/anchorer/lib/view/CompatiblePinnedHeaderListView.java:170-189 | alpha never decreases as the child's bottom moves down |
| PinnedHeaderListView.Configure | library/src/main/java/com/anchorer/lib/view/CompatiblePinnedHeaderListView.java:146-191 | no header view or an unknown state changes nothing; GONE hides; VISIBLE shows opaque at the top; PUSHED_UP places and fades as PushedUp says and throws where it throws; a new top lays the header out at its measured height; each shown state adds one configure call |
| PinnedHeaderListView.ConfigureSettles | library/src/main/java/com/anchorer/lib/view/CompatiblePinnedHeaderListView.java:146-191 | once the header is at its measured height, configuring again in the same circumstances keeps its visibility, top and height and repeats the configure call |
| PinnedHeaderListView.PinnedHeaderListView.constructor | library/src/main/java/com/anchorer/lib/view/CompatiblePinnedHeaderListView.java:33-46 | no header view, no adapter, header hidden |
| PinnedHeaderListView.PinnedHeaderListView.SetPinnedHeaderView | library/src/main/java/com/anchorer/lib/view/CompatiblePinnedHeaderListView.java:109-119 | records the header view |
| PinnedHeaderListView.PinnedHeaderListView.SetAdapter | library/src/main/java/com/anchorer/lib/view/CompatiblePinnedHeaderListView.java:122-125 | a non-implementing adapter throws ClassCast; a null one leaves none |
| PinnedHeaderListView.PinnedHeaderListView.OnMeasure | library/src/main/java/com/anchorer/lib/view/CompatiblePinnedHeaderListView.java:128-135 | the header height is measured only when there is a header view |
| PinnedHeaderListView.PinnedHeaderListView.ConfigureHeaderView | library/src/main/java/com/anchorer/lib/view/CompatiblePinnedHeaderListView.java:146-191 | the header fields become what Configure makes of them, with the adapter's state or PUSHED_NULL without an adapter, and the bottom 0 without a first child; a throw leaves them unchanged |
| PinnedHeaderListView.PinnedHeaderListView.OnLayout | library/src/main/java/com/anchorer/lib/view/CompatiblePinnedHeaderListView.java:138-144 | with a header view, the header is laid out at the top at its measured height and then becomes what Configure makes of it (a throw keeps that layout); without one nothing changes |
| PinnedHeaderListView.PinnedHeaderListView.OnScroll | library/src/main/java/com/anchorer/lib/view/CompatiblePinnedHeaderListView.java:103-106 | the header becomes what Configure makes of it; then the list view's scroll report runs, unless configuring threw, which only a zero-height pushed-up header does |
| PinnedHeaderListView.PinnedHeaderListView.DispatchDraw | library/src/main/java/com/anchorer/lib/view/CompatiblePinnedHeaderListView.java:194-199 | the header is drawn exactly while visible; a visible header with no view throws |
| RefreshableListView.NextArg | library/src/main/java/com/anchorer/lib/view/CompatibleRefreshableListView.java:354-359 | the next height is below the current one, never below the limit from above it, and one below the limit from exactly the limit |
| RefreshableListView.SettleShape | library/src/main/java/com/anchorer/lib/view/CompatibleRefreshableListView.java:337-362 | a spring-back applies strictly decreasing heights within [limit, h] and ends exactly at the limit; from below the limit it applies none; the lib_anchorer copy, view/CompatiblePinnedHeaderRefreshableListView.java lines 335-360, behaves the same |
| RefreshableListView.ArrowFollowsLastClearHeight | library/src/main/java/com/anchorer/lib/view/CompatibleRefreshableListView.java:257-296 | after a series of heights the arrow points up iff the last height not equal to the trigger was above it |
| RefreshableListView.DragHeight | library/src/main/java/com/anchorer/lib/view/CompatibleRefreshableListView.java:160 | the requested height is half the drag distance plus the initial height, and never negative |
| RefreshableListView.DragHeightMonotone | library/src/main/java/com/anchorer/lib/view/CompatibleRefreshableListView.java:160 | the requested height never decreases as the finger moves down |
| RefreshableListView.ClickTarget | library/src/main/java/com/anchorer/lib/view/CompatibleRefreshableListView.java:252-255 | position 0 is the header and is swallowed; others map to position - 1 |
| RefreshableListView.RefreshableListView.constructor | library/src/main/java/com/anchorer/lib/view/CompatibleRefreshableListView.java:123-140 | a view with its pull header initialised at height 0 |
| RefreshableListView.RefreshableListView.SetOnRefreshListener | library/src/main/java/com/anchorer/lib/view/CompatibleRefreshableListView.java:101-103 | installs the refresh listener |
| RefreshableListView.RefreshableListView.SetOverDragListener | library/src/main/java/com/anchorer/lib/view/CompatibleRefreshableListView.java:105-107 | installs the over-drag listener |
| RefreshableListView.RefreshableListView.SetHeaderHeight | library/src/main/java/com/anchorer/lib/view/CompatibleRefreshableListView.java:257-296 | the inner header is shown iff the height exceeds 1, the container takes the height, the margin shows it from the bottom, and the arrow follows ArrowAfter; the lib_anchorer copy, view/CompatiblePinnedHeaderRefreshableListView.java lines 256-294, behaves the same |
| RefreshableListView.RefreshableListView.StartRefreshing | library/src/main/java/com/anchorer/lib/view/CompatibleRefreshableListView.java:314-323 | marks refreshing and asks the listener once |
| RefreshableListView.RefreshableListView.StartRefreshingFromOutside | library/src/main/java/com/anchorer/lib/view/CompatibleRefreshableListView.java:328-331 | starts refreshing and springs the header to the trigger height |
| RefreshableListView.RefreshableListView.CompleteRefreshing | library/src/main/java/com/anchorer/lib/view/CompatibleRefreshableListView.java:146-154 | optionally stamps the time in seconds, ends the refresh and springs the header back to nothing; the lib_anchorer copy, view/CompatiblePinnedHeaderRefreshableListView.java lines 149-158, behaves the same |
| RefreshableListView.RefreshableListView.GetLastUpdateInterval | library/src/main/java/com/anchorer/lib/view/CompatibleRefreshableListView.java:368-370 | seconds since the last stamp |
| RefreshableListView.RefreshableListView.HandleMessage | library/src/main/java/com/anchorer/lib/view/CompatibleRefreshableListView.java:337-362 | a REFRESH message while not refreshing, or a height below the limit, ends the chain; otherwise the height is applied (the inner header shown exactly above 1 pixel, its top margin the height less the header height) and NextArg posted; header and margin are untouched when the chain ends; the lib_anchorer copy, view/CompatiblePinnedHeaderRefreshableListView.java lines 335-360, behaves the same |
| RefreshableListView.RefreshableListView.OnInterceptTouchEvent | library/src/main/java/com/anchorer/lib/view/CompatibleRefreshableListView.java:211-223 | DOWN cancels pending spring-backs and records the drag start and the current height; the lib_anchorer copy, view/CompatiblePinnedHeaderRefreshableListView.java lines 161-173, behaves the same |
| RefreshableListView.RefreshableListView.OnTouchEvent | library/src/main/java/com/anchorer/lib/view/CompatibleRefreshableListView.java:226-249 | UP with the arrow up starts a refresh, with it down springs back only while the first child is at the top, during a refresh springs to the trigger; UP clears the flag; the lib_anchorer copy, view/CompatiblePinnedHeaderRefreshableListView.java lines 176-199, behaves the same |
| RefreshableListView.RefreshableListView.DispatchTouchEvent | library/src/main/java/com/anchorer/lib/view/CompatibleRefreshableListView.java:157-208 | a MOVE past the slop with the first child at the top resizes the header to DragHeight, showing the inner header exactly above 1 pixel with the matching top margin; any other event leaves the arrow, the inner header and the margin as they were; this library copy skips horizontal gestures and reports over-drag; the lib_anchorer copy, view/CompatiblePinnedHeaderRefreshableListView.java lines 202-248, does the same without either |
| RefreshableListView.RefreshableListView.PerformItemClick | library/src/main/java/com/anchorer/lib/view/CompatibleRefreshableListView.java:252-255 | header clicks are swallowed; others go to the platform shifted by one; the lib_anchorer copy, view/CompatiblePinnedHeaderRefreshableListView.java lines 251-254, behaves the same |
| TabsContainer.GroupUI | lib_anchorer/src/main/java/com/anchorer/lib/view/FragmentViewPagerTabsContainer.java:126-136 | one UI call per tab of the group, in order |
| TabsContainer.UiPassSpec | lib_anchorer/src/main/java/com/anchorer/lib/view/FragmentViewPagerTabsContainer.java:106-124 | a tab change selects exactly the tabs of the current group and unselects exactly those of the previous one; an index outside the groups touches nothing |
| TabsContainer.AddedTab | lib_anchorer/src/main/java/com/anchorer/lib/view/FragmentViewPagerTabsContainer.java:61-70 | the tab is appended to its group, empty groups pad up to it, and no other group changes |
| TabsContainer.AddTabsCommute | lib_anchorer/src/main/java/com/anchorer/lib/view/FragmentViewPagerTabsContainer.java:61-70 | tabs added to different groups give the same groups in either order |
| TabsContainer.FragmentViewPagerTabsContainer.constructor | lib_anchorer/src/main/java/com/anchorer/lib/view/FragmentViewPagerTabsContainer.java:47-55 | no groups, both indices -1, pager idle |
| TabsContainer.FragmentViewPagerTabsContainer.AddTabViews | lib_anchorer/src/main/java/com/anchorer/lib/view/FragmentViewPagerTabsContainer.java:61-70 | the padding loop builds AddedTab; a negative position throws |
| TabsContainer.FragmentViewPagerTabsContainer.OnTabClick | lib_anchorer/src/main/java/com/anchorer/lib/view/FragmentViewPagerTabsContainer.java:83-87 | clicking the current tab changes nothing, neither the pager nor the current and previous tab; another moves the pager there as setCurrentItemAtPosition does |
| TabsContainer.FragmentViewPagerTabsContainer.SetCurrentItemAtPosition | lib_anchorer/src/main/java/com/anchorer/lib/view/FragmentViewPagerTabsContainer.java:94-100 | positions 0..size move the pager; a new tab becomes current with the old one as previous, an unchanged tab keeps both indices; other positions change nothing |
| TabsContainer.FragmentViewPagerTabsContainer.SetTabAtPosition | lib_anchorer/src/main/java/com/anchorer/lib/view/FragmentViewPagerTabsContainer.java:106-124 | the current tab becomes previous, the UI pass runs over all groups, and the listener hears once; the current tab again does nothing |
| TabsContainer.FragmentViewPagerTabsContainer.SetUIAt | lib_anchorer/src/main/java/com/anchorer/lib/view/FragmentViewPagerTabsContainer.java:126-136 | every tab of an existing group gets the call |
| TabsContainer.FragmentViewPagerTabsContainer.OnPageScrollStateChanged | lib_anchorer/src/main/java/com/anchorer/lib/view/FragmentViewPagerTabsContainer.java:143-150 | the listener hears a settled page exactly on SETTLING to IDLE; the state is always recorded |
| TabsContainer.FragmentViewPagerTabsContainer.OnPageSelected | lib_anchorer/src/main/java/com/anchorer/lib/view/FragmentViewPagerTabsContainer.java:156-158 | a selected page moves the pager and tabs as setCurrentItemAtPosition does, keeping the previous tab when the tab does not change |
| AdvertSlider.Dots | lib_anchorer/src/main/java/com/anchorer/lib/view/DefaultAdvertSlider.java:110-117 | the dot at the position is selected and every other dot normal |
| AdvertSlider.ExactlyOneDotSelected | lib_anchorer/src/main/java/com/anchorer/lib/view/DefaultAdvertSlider.java:110-117 | with distinct resources a dot is lit iff the position is a dot, and then only that one |
| AdvertSlider.NextPosition | lib_anchorer/src/main/java/com/anchorer/lib/view/DefaultAdvertSlider.java:272-274 | an empty list throws an arithmetic error; from a valid position the next page follows, and the last wraps to 0 |
| AdvertSlider.Advanced | lib_anchorer/src/main/java/com/anchorer/lib/view/DefaultAdvertSlider.java:272-274 | any number of advances from a valid page stays within the pages |
| AdvertSlider.AdvancedFollowsNextPosition | lib_anchorer/src/main/java/com/anchorer/lib/view/DefaultAdvertSlider.java:272-274 | each advance is exactly the Java rotation step on a valid page, so Advanced is that step repeated |
| AdvertSlider.AdvancedIsModular | lib_anchorer/src/main/java/com/anchorer/lib/view/DefaultAdvertSlider.java:272-274 | k advances move (position + k) mod size |
| AdvertSlider.FullRoundReturns | lib_anchorer/src/main/java/com/anchorer/lib/view/DefaultAdvertSlider.java:272-274 | a full round of advances returns to the starting page |
| AdvertSlider.DefaultAdvertSlider.constructor | lib_anchorer/src/main/java/com/anchorer/lib/view/DefaultAdvertSlider.java:51-53 | page 0, pager idle, neither dragging nor settling |
| AdvertSlider.DefaultAdvertSlider.InitSlider | lib_anchorer/src/main/java/com/anchorer/lib/view/DefaultAdvertSlider.java:76-98 | records the listener, data and optional views, and installs a new adapter with no page instantiated yet |
| AdvertSlider.DefaultAdvertSlider.OnPageSelected | lib_anchorer/src/main/java/com/anchorer/lib/view/DefaultAdvertSlider.java:103-118 | the position becomes current; an outside position throws before any view changes; otherwise the title shows the advert's title and the dots are Dots for the position |
| AdvertSlider.DefaultAdvertSlider.OnPageScrollStateChanged | lib_anchorer/src/main/java/com/anchorer/lib/view/DefaultAdvertSlider.java:124-126 | records the state; dragging and settling reflect it and are never both true |
| AdvertSlider.DefaultAdvertSlider.IsDragging | lib_anchorer/src/main/java/com/anchorer/lib/view/DefaultAdvertSlider.java:213-215 | true exactly while the recorded pager state is DRAGGING |
| AdvertSlider.DefaultAdvertSlider.IsSettling | lib_anchorer/src/main/java/com/anchorer/lib/view/DefaultAdvertSlider.java:220-222 | true exactly while the recorded pager state is SETTLING |
| AdvertSlider.DefaultAdvertSlider.SetViewPagerScrollState | lib_anchorer/src/main/java/com/anchorer/lib/view/DefaultAdvertSlider.java:261-263 | sets the state |
| AdvertSlider.DefaultAdvertSlider.GetCount | lib_anchorer/src/main/java/com/anchorer/lib/view/DefaultAdvertSlider.java:131-133 | one page per advert |
| AdvertSlider.DefaultAdvertSlider.IncreaseCurrentItemPosition | lib_anchorer/src/main/java/com/anchorer/lib/view/DefaultAdvertSlider.java:272-274 | advances as NextPosition says; an empty list throws and leaves the position |
| AdvertSlider.DefaultAdvertSlider.SetViewPagerListData | lib_anchorer/src/main/java/com/anchorer/lib/view/DefaultAdvertSlider.java:229-231 | replaces the data list and leaves the instantiated pages as they are |
| AdvertSlider.DefaultAdvertSlider.InstantiateItem | lib_anchorer/src/main/java/com/anchorer/lib/view/DefaultAdvertSlider.java:135-157 | a page in the list captures the advert at its position; a position outside the list throws and creates no page |
| AdvertSlider.DefaultAdvertSlider.DestroyItem | lib_anchorer/src/main/java/com/anchorer/lib/view/DefaultAdvertSlider.java:160-162 | the page at the position is removed and no other |
| AdvertSlider.DefaultAdvertSlider.OnItemClick | lib_anchorer/src/main/java/com/anchorer/lib/view/DefaultAdvertSlider.java:135-148 | a click on an instantiated page reports the id, title and link of the advert that page captured, if there is a listener |
| AdvertSlider.ClickAfterDataChange | lib_anchorer/src/main/java/com/anchorer/lib/view/DefaultAdvertSlider.java:135-148 | a page created before the data list is replaced still reports its own advert, not the one the list holds now |
| LibraryAdvertSlider.DotsOf | library/src/main/java/com/anchorer/lib/view/DefaultAdvertSlider.java:98-99 | the dot background of each item, in order |
| LibraryAdvertSlider.Reselected | library/src/main/java/com/anchorer/lib/view/DefaultAdvertSlider.java:210-213 | the dot at from is dimmed and the one at to lit, each only when it is an index; nothing else changes |
| LibraryAdvertSlider.ReselectMovesTheLitDot | library/src/main/java/com/anchorer/lib/view/DefaultAdvertSlider.java:89-101 | from a state with only the old page lit, moving the selection leaves only the new page lit, the same as relighting every dot |
| LibraryAdvertSlider.DefaultAdvertSlider.constructor | library/src/main/java/com/anchorer/lib/view/DefaultAdvertSlider.java:45-47 | page 0, remembered page 0, pager idle |
| LibraryAdvertSlider.DefaultAdvertSlider.InitSlider | library/src/main/java/com/anchorer/lib/view/DefaultAdvertSlider.java:66-89 | records the listener, data, title view and dot resources, installs a new adapter with no page instantiated yet and a new page listener whose remembered page is 0 |
| LibraryAdvertSlider.SelectAfterReinit | library/src/main/java/com/anchorer/lib/view/DefaultAdvertSlider.java:66-101 | after re-initialising with a non-empty list, selecting any of its pages succeeds, whatever page was selected before |
| LibraryAdvertSlider.DefaultAdvertSlider.SetViewPagerListData | library/src/main/java/com/anchorer/lib/view/DefaultAdvertSlider.java:225-227 | replaces the data list and leaves the instantiated pages as they are |
| LibraryAdvertSlider.DefaultAdvertSlider.OnPageSelected | library/src/main/java/com/anchorer/lib/view/DefaultAdvertSlider.java:89-101 | the position becomes current; an outside position throws; otherwise the title is set, and a remembered page outside the list throws, else the selection moves by Reselected and the page is remembered |
| LibraryAdvertSlider.DefaultAdvertSlider.OnPageScrollStateChanged | library/src/main/java/com/anchorer/lib/view/DefaultAdvertSlider.java:107-109 | records the state; dragging and settling reflect it and are never both true |
| LibraryAdvertSlider.DefaultAdvertSlider.IsDragging | library/src/main/java/com/anchorer/lib/view/DefaultAdvertSlider.java:191-193 | true exactly while the recorded pager state is DRAGGING |
| LibraryAdvertSlider.DefaultAdvertSlider.IsSettling | library/src/main/java/com/anchorer/lib/view/DefaultAdvertSlider.java:198-200 | true exactly while the recorded pager state is SETTLING |
| LibraryAdvertSlider.DefaultAdvertSlider.SetTitleAndDotFrom | library/src/main/java/com/anchorer/lib/view/DefaultAdvertSlider.java:207-214 | with a title view an outside new position throws before the dots change; otherwise the dots change only at in-range indices |
| LibraryAdvertSlider.DefaultAdvertSlider.SetTitleAndDot | library/src/main/java/com/anchorer/lib/view/DefaultAdvertSlider.java:215-219 | exactly the item at the position is lit (none when outside the list) and nothing but the dots changes |
| LibraryAdvertSlider.DefaultAdvertSlider.IncreaseCurrentItemPosition | library/src/main/java/com/anchorer/lib/view/DefaultAdvertSlider.java:268-270 | advances as NextPosition says; an empty list throws |
| LibraryAdvertSlider.DefaultAdvertSlider.InstantiateItem | library/src/main/java/com/anchorer/lib/view/DefaultAdvertSlider.java:119-136 | a page in the list captures the item at its position; a position outside the list throws and creates no page |
| LibraryAdvertSlider.DefaultAdvertSlider.DestroyItem | library/src/main/java/com/anchorer/lib/view/DefaultAdvertSlider.java:139-141 | the page at the position is removed and no other |
| LibraryAdvertSlider.DefaultAdvertSlider.OnItemClick | library/src/main/java/com/anchorer/lib/view/DefaultAdvertSlider.java:119-131 | a click on an instantiated page reports the details of the item that page captured, with the location counted from 1, if there is a listener |
| LibraryAdvertSlider.ClickAfterDataChange | library/src/main/java/com/anchorer/lib/view/DefaultAdvertSlider.java:119-131 | a page created before the data list is replaced still reports its own item, not the one the list holds now |
| AdvertSliderItem.AdvertSliderItem.constructor | lib_anchorer/src/main/java/com/anchorer/lib/model/AdvertSliderItem.java:12-17 | no advert and the flag off, so the displayed title is "" |
| AdvertSliderItem.AdvertSliderItem.DisplayedTitle | lib_anchorer/src/main/java/com/anchorer/lib/model/AdvertSliderItem.java:19-24 | "" while the flag is off; the advert's title while on; null dereference when on with no advert |
| AdvertSliderItem.AdvertSliderItem.SetDisplayTitleFlag | lib_anchorer/src/main/java/com/anchorer/lib/model/AdvertSliderItem.java:26-28 | sets only the flag; the displayed title follows it |
| AdvertSliderItem.AdvertSliderItem.SetAdvert | lib_anchorer/src/main/java/com/anchorer/lib/model/AdvertSliderItem.java:30-32 | sets only the advert; the getters then read its fields |
| AdvertSliderItem.AdvertSliderItem.AdvertId | lib_anchorer/src/main/java/com/anchorer/lib/model/AdvertSliderItem.java:34-36 | the advert's id, or a null dereference without an advert |
| AdvertSliderItem.AdvertSliderItem.AdvertTitle | lib_anchorer/src/main/java/com/anchorer/lib/model/AdvertSliderItem.java:38-40 | the advert's title, or a null dereference without an advert |
| AdvertSliderItem.AdvertSliderItem.AdvertLink | lib_anchorer/src/main/java/com/anchorer/lib/model/AdvertSliderItem.java:42-44 | the advert's link, or a null dereference without an advert |

## Left out

- Digest computation itself: MD5 and SHA-1 are parameters (the digest bytes). The model covers only their hex formatting. `getBytes` encodings, Base64, regular-expression validation and `UUID.toString` formatting are not modelled.
- Android drawing, measuring, animation and resource loading are not modelled. This covers the arrow rotation, the fade-in animation, image loading into the slider pages, the progress bar and `setTextColor`. The model keeps only the state these calls depend on or change.
- Clocks, calendars and `SimpleDateFormat`: the current time and the calendar fields are parameters, as is the clock-based "last updated" text of the refreshable list.
- Slider auto-rotation: the executor, `slideToCurrentItem`, `FixedSpeedScroller` and `resumeFromOtherPageFlag` are thread and timer plumbing. Only the rotation step `increaseCurrentItemPosition` is modelled.
- ViewPager re-entrancy is not modelled: the model treats `setCurrentItem` as recording the page, without the nested `onPageSelected` the platform may call back.
- Aliasing of tab views between groups is not modelled: a tab view is identified by a number.
- Results of `super.*` calls, such as the platform's own intercept decision or item click, are parameters.
- `initializePullHeader` converts dp to px with the display density. The constructor takes the pixel values directly, and a view used before that call is not modelled.
- Floating-point touch coordinates are reals. Float rounding is not modelled; `(int)` casts truncate toward zero as in Java.
- Int overflow of view coordinates, header heights and alpha products is not modelled: those are unbounded integers.
- `MemoryCache.SizeInBytes` wraps the int product at 32 bits, but the long running total is unbounded.
- `Math.abs(Integer.MIN_VALUE)` staying negative is not modelled for the child-top distance.
- Java `null` strings are modelled where the code tests for them (`getSubString`, `sha1`, `md5`, `getStringArrayFromIntArray`). `StringToUnicode`, `UnicodeToString` and `getDateOfToday` take non-null strings, and a null title in an advert is not modelled.
- The `hashCode` of the Android id, device id and serial, and the label and icon of an `AppInfo`, are parameters.
- StringUtils.GetDownloadVelocity: requires fewer than 10^8 tenths of a MB. Above that, `double` formatting switches to exponent notation and the `(int)` cast saturates; neither is modelled.
- AdvertSlider.DefaultAdvertSlider.IncreaseCurrentItemPosition: requires the list size below 2^31, which a Java list size always is; the same holds for `LibraryAdvertSlider.DefaultAdvertSlider.IncreaseCurrentItemPosition`.
- Null data lists in the sliders are not modelled: a list before `initSlider`, and the null checks in `setTitleAndDot` for one. A null advert element in a list is not modelled either.
- Which slider pages the pager instantiates and destroys, and when, is the platform's choice: `InstantiateItem` and `DestroyItem` are called by whoever drives the model. Pages capture their advert or item as a value, so a setter called later on that same object is not seen by the page's click.
- The library slider's click also passes the item object; the model reports its fields. The library's own `AdvertSliderItem` class is not part of this model, so its items are records of the fields the slider reads.
- Logging calls made by the utilities (`L.w` and similar) are not modelled.

## Findings

| source | as written | input that shows it | evidently intended | confidence | as-written member | corrected member |
|---|---|---|---|---|---|---|
| lib_anchorer/src/main/java/com/anchorer/lib/utils/SystemUtils.java:225 | the UUID's low half is the device hash shifted into the high word and OR-ed with the serial hash, with the int serial hash sign-extended to long | a serial hash of 0x80000000 with device hashes 0 and 1 gives the same UUID | mask the serial hash with `0xFFFFFFFFL` so the device hash stays in the high word | not executed | SystemUtils.UuidCollision | SystemUtils.MaskedUuidKeepsBoth |
