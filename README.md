# alu-system_linux core, modelled in Dafny

This project models five parts of the alu-system_linux exercises and proves
properties about them:

- **Gaussian blur** (`multithreading/10-blur_portion.c`, `11-blur_image.c`).
  `is_valid_neighbor` tests whether a candidate is a neighbour.
  `apply_blur_to_pixel` takes the weighted average of a k-by-k window.
  `blur_portion` walks one rectangle of the destination.
  `divide_image_into_portions` lays a grid of rectangles over the image.
  `blur_image` blurs every portion. Modules: `Convolver`, `Partitioner`.
- **HTTP request parsing for the todo API**
  (`sockets/http_request_utils.c`, `http_request_parser.c`, `todo_api_1.c`,
  `todo_api_2.c`). These helpers cut the request buffer in place with
  `strtok`/`strtok_r`. They find the headers and the body with `strstr` and
  build header and parameter lists. Modules: `HttpUtils`, `HttpParser`,
  `TodoApi1`, `TodoApi2`. The libc string functions are modelled in
  `CString` (`strlen`, `strspn`/`strcspn`, `strtok`, `strstr`).
- **hnm**, an `nm` clone (`nm_objdump/hnm-64.c`, `hnm-32.c`). It chooses
  the symbol letter, formats the address column, filters the symbols,
  searches for the symbol table and reports errors. Modules: `Elf`, `Hnm`.
  The 32-bit and 64-bit files are the same code at two widths, so the
  model has one function that takes the file class as a parameter.
- **The task executor** of `multithreading/22-prime_factors.c`
  (`create_task`, `exec_tasks`). Module: `PrimeTasks`. A task is a heap
  object, and several list nodes may point at the same one.
- **The CPython int printers** (`0x08_CPython/5-python.c`,
  `100-python.c`). They print a `PyLongObject` whose base-2^30 digits are
  summed in an `unsigned long`. Modules: `PyLong`, `Python5`, `Python100`.

Shared helpers are in `Arith`, `Seqs` and `Wrappers` (`Option`).

### How the C code is modelled

- Buffers are Dafny arrays. Any code that writes into a buffer or array is
  a method whose result is its new contents. Each such method is proved
  equal to a specification function. Examples:
  - `HttpHeadersInit` returns `(buf[..], r) == HeadersFrom(old(buf[..]), line, [])`.
  - `BlurPortion` returns the pixels it blurred, and leaves every other
    pixel unchanged.
- Pointers into the request buffer are indexes. NULL is `None`.
- C's undefined behaviour is modelled explicitly:
  - A NULL pointer used after a missing line is `HttpParser.Outcome.Undefined`.
  - A shift by 64 or more is the x86-64 shift (`Python100.ShiftCount`).
  - An all-zero weight sum is an arbitrary pixel (`Convolver.BlurredPixel` is `None`).
- `size_t` subtraction wraps modulo 2^64 (`Partitioner.SizeSub`).
  `unsigned long` sums wrap modulo 2^64 (`Python5.PrintPythonInt`,
  `Python100.Calculated`).

## Model

| member | source | states |
|---|---|---|
| Convolver.TruncToInt | multithreading/10-blur_portion.c:72-74 | the `(int)` cast of a float truncates toward zero: for x >= 0 the result is the floor, for x < 0 the ceiling |
| Convolver.IsValidNeighbor | multithreading/10-blur_portion.c:84-106 | an accepted candidate is a pixel of the image; for a kernel smaller than 2 the check is exactly "inside the image" (no column test applies) |
| Convolver.BlurredPixel | multithreading/10-blur_portion.c:41-75 | the average is undefined (`None`) exactly when the weight sum over the accepted cells is 0 |
| Convolver.CandidateCell | multithreading/10-blur_portion.c:50-68 | the stepping index `target - (k/2)(1+w) + i w + j` is the flat index of window row `row(target) - k/2 + i`, column `col(target) - k/2 + j` |
| Convolver.RejectsLeftWrap | multithreading/10-blur_portion.c:96-100 | a candidate whose column falls left of the image (it would wrap to the previous row) is rejected |
| Convolver.RejectsRightWrap | multithreading/10-blur_portion.c:96-103 | a candidate whose column falls right of the image (it would wrap to the next row) is rejected |
| Convolver.AcceptedIsWindowCell | multithreading/10-blur_portion.c:84-106 | every accepted candidate is a window cell lying inside the image, when the image is at least 2(k/2) wide |
| Convolver.TargetAccepted | multithreading/10-blur_portion.c:84-106 | the window's centre is the target pixel itself, and `is_valid_neighbor` accepts it |
| Convolver.AcceptedIffInImage | multithreading/10-blur_portion.c:84-106 | when the image is at least 3(k/2) wide, the accepted candidates are exactly the window cells inside the image (both directions) |
| Convolver.WeightedInRange | multithreading/10-blur_portion.c:59-64 | a pixel with channels in [0, 255] times a non-negative weight gives channel sums in [0, 255 times the weight] |
| Convolver.TermInRange | multithreading/10-blur_portion.c:57-65 | each cell's contribution stays in range and has a non-negative weight |
| Convolver.RowAccInRange | multithreading/10-blur_portion.c:55-66 | the accumulators of a window row stay within [0, 255 times the weight sum] |
| Convolver.WindowAccInRange | multithreading/10-blur_portion.c:53-69 | the accumulators of the whole window stay within [0, 255 times the weight sum] |
| Convolver.AverageInRange | multithreading/10-blur_portion.c:72-74 | a total in [0, 255 sum] divided by a positive sum and truncated lies in [0, 255] |
| Convolver.BlurredPixelInRange | multithreading/10-blur_portion.c:41-75 | with channels in [0, 255] and non-negative weights, every defined blurred channel is in [0, 255] |
| Convolver.RowAccSumAtLeast | multithreading/10-blur_portion.c:55-66 | with non-negative weights, a row's weight sum is at least the weight of each accepted cell in it |
| Convolver.WindowAccSumAtLeast | multithreading/10-blur_portion.c:53-69 | with non-negative weights, the window's weight sum is at least that of each row |
| Convolver.CentreWeightDefines | multithreading/10-blur_portion.c:41-75 | a positive centre weight makes the average defined for every pixel (no division by a zero sum) |
| Convolver.IdentityKernel | multithreading/10-blur_portion.c:41-75 | the 1x1 kernel [1.0] leaves each pixel unchanged |
| Convolver.NoAcceptedCandidates | multithreading/10-blur_portion.c:53-69 | when no candidate is accepted, all four accumulators stay 0 |
| Convolver.NoAcceptedInRow | multithreading/10-blur_portion.c:55-66 | with no candidate accepted, the accumulators of a window row stay 0 for every prefix of the row |
| Convolver.OnePixelImageUndefined | multithreading/10-blur_portion.c:84-106 | for a 1x1 image and a 3x3 kernel even the target is rejected, so the sum is 0 and the result is undefined |
| Convolver.ApplyBlurToPixel | multithreading/10-blur_portion.c:41-75 | nested loops with the stepping neighbour index; the destination pixel at `target` becomes `BlurredPixel` (the weighted average over the accepted cells) and no other pixel changes |
| Convolver.RowStep | multithreading/10-blur_portion.c:26-30 | within a destination row the index advances by one column; the first index that is a multiple of the width is the next row's start |
| Convolver.RowStepInImage | multithreading/10-blur_portion.c:24-31 | each index visited inside a row is inside the image |
| Convolver.VisitsFromStep | multithreading/10-blur_portion.c:24-33 | the outer loop's visit order is one row's visits followed by those of the rows after it |
| Convolver.BlurPortion | multithreading/10-blur_portion.c:18-34 | every pixel the loops visit (`Visits`) is blurred, and every other destination pixel is unchanged |
| Convolver.BlurRow | multithreading/10-blur_portion.c:26-32 | the inner loop appends one row's visits, stopping at the image row's end, and keeps the blurred-so-far invariant |
| Convolver.VisitsAreClippedRectangle | multithreading/10-blur_portion.c:22-33 | the visited indices are exactly the portion's rectangle clipped to the image: rows [y, min(y+h, H)) and columns [x, min(x+w, W)) |
| Convolver.RowVisitsCells | multithreading/10-blur_portion.c:26-31 | a row's visits are the cells of that row from column x to min(x+w, W) |
| Convolver.RowStartBelowEnd | multithreading/10-blur_portion.c:22-24 | the outer loop's bound `MIN(end index, pixel count)` admits exactly the rows below y+h and below H |
| Convolver.VisitsFromRows | multithreading/10-blur_portion.c:22-33 | the visits from row r are the cells of rows r up to the bound and the portion's columns |
| Convolver.VisitsFromIncreasing | multithreading/10-blur_portion.c:24-33 | the indices are visited in strictly increasing order, none below the start |
| Convolver.VisitsIncreasing | multithreading/10-blur_portion.c:18-34 | a portion visits no pixel twice (the visit order is strictly increasing) |
| Partitioner.SizeSub | multithreading/11-blur_image.c:71-77 | `size_t` subtraction is modulo 2^64 and is the true difference when it does not underflow |
| Partitioner.SqrtFrom | multithreading/11-blur_image.c:94-102 | counting up from n, this is the integer square root of m |
| Partitioner.FloorSqrt | multithreading/11-blur_image.c:94-102 | r is the integer square root: r^2 <= m < (r+1)^2 |
| Partitioner.SqrtUnique | multithreading/11-blur_image.c:94-102 | the integer square root is unique |
| Partitioner.GridSizeValues | multithreading/11-blur_image.c:59-102 | the grid size for MAX_THREADS = 16 is 4, and for 0 threads it is 0 |
| Partitioner.CalculatePortionGridSize | multithreading/11-blur_image.c:94-102 | the while loop returns the integer square root of `max_threads` |
| Partitioner.Spans | multithreading/11-blur_image.c:67-84 | an axis loop from x walks no interval exactly when x is already at the end n |
| Partitioner.StepSpans | multithreading/11-blur_image.c:68-79 | one turn of an axis loop: the interval at x with the widened step, then the rest of the axis |
| Partitioner.ColumnsStep | multithreading/11-blur_image.c:68-73 | one turn of the column loop extends the intervals done so far, which stay a prefix of the whole axis |
| Partitioner.SpansTile | multithreading/11-blur_image.c:67-84 | the intervals of an axis loop tile [x, n): they are contiguous, non-empty and end at n |
| Partitioner.FirstSpan | multithreading/11-blur_image.c:70-79 | the first interval has the step, widened to reach n when the remainder is non-zero and below the step |
| Partitioner.SpanCount | multithreading/11-blur_image.c:67-84 | an axis from x with step w has (n - x) / w intervals |
| Partitioner.SpanStarts | multithreading/11-blur_image.c:67-84 | interval k starts at x + k w, and every interval but the last has length w |
| Partitioner.SpanLast | multithreading/11-blur_image.c:71-79 | the last interval has length between w and 2w and ends at n |
| Partitioner.SpanShape | multithreading/11-blur_image.c:67-84 | an axis is (n-x)/w intervals of width w, where the last one is widened to absorb the remainder |
| Partitioner.AxisShape | multithreading/11-blur_image.c:67-70 | an axis of length n with grid g tiles [0, n) with n / max(n/g, 1) intervals |
| Partitioner.WideAxis | multithreading/11-blur_image.c:67-79 | an axis at least g^2 long has exactly g intervals, and the last is n/g + n%g long |
| Partitioner.LayoutAppend | multithreading/11-blur_image.c:68-84 | adding one column to the layout appends that column's portions, in row order (column-major) |
| Partitioner.LayoutIndex | multithreading/11-blur_image.c:81-82 | entry c * rows + r of the layout is the portion of column c and row r |
| Partitioner.LayoutLength | multithreading/11-blur_image.c:68-84 | the layout has columns times rows entries |
| Partitioner.LayoutShares | multithreading/11-blur_image.c:67-84 | every portion of the layout refers to the same source image, destination and kernel |
| Partitioner.GridSize | multithreading/11-blur_image.c:59 | the grid size is 4 |
| Partitioner.FillCountFormula | multithreading/11-blur_image.c:67-84 | the loops fill (W / max(W/4, 1)) times (H / max(H/4, 1)) entries, with 0 for an empty side |
| Partitioner.TileOf | multithreading/11-blur_image.c:67-84 | each coordinate in a tiled range lies in exactly one interval |
| Partitioner.TilesAbove | multithreading/11-blur_image.c:67-84 | every interval of a tiling is non-empty and within the range |
| Partitioner.InCell | multithreading/11-blur_image.c:115-128 | a pixel is blurred by portion (c, r) iff its column is in column interval c and its row in row interval r |
| Partitioner.InCovered | multithreading/11-blur_image.c:31-41 | a pixel visited by one portion is covered by the portions together |
| Partitioner.LayoutCovers | multithreading/11-blur_image.c:56-87 | every pixel of the image is in some portion of the layout |
| Partitioner.CellCovered | multithreading/11-blur_image.c:67-84 | a pixel whose column lies in column interval c and whose row in row interval r is blurred by the layout |
| Partitioner.LayoutCoversAll | multithreading/11-blur_image.c:56-87 | together, the portions cover every pixel of the image |
| Partitioner.LayoutSlot | multithreading/11-blur_image.c:81-82 | every layout entry k is the portion at column k / rows and row k % rows |
| Partitioner.LayoutDisjoint | multithreading/11-blur_image.c:56-87 | two different portions never blur the same pixel, so the threads write disjoint parts of the destination |
| Partitioner.AsWrittenPortionCount | multithreading/11-blur_image.c:59-86 | as written, 16 entries are allocated and 16 is returned whatever the image size; 0 when malloc fails |
| Partitioner.AsWrittenCountMismatch | multithreading/11-blur_image.c:60-86 | the loops fill 20 entries for a 10x16 image and 49 for 7x7 (both past the 16 allocated), and only 4 of the 16 for 2x2 |
| Partitioner.WideImageFillsGrid | multithreading/11-blur_image.c:59-86 | an image at least 16 wide and 16 high fills exactly the 16 entries allocated; its last column and row absorb the remainders |
| Partitioner.InitializePortion | multithreading/11-blur_image.c:115-128 | the seven fields are stored into the entry pointed to; a NULL pointer changes nothing |
| Partitioner.FillColumn | multithreading/11-blur_image.c:70-83 | the inner loop stores the column's portions, one per row interval, at consecutive entries, leaving the entries before them unchanged |
| Partitioner.FillColumns | multithreading/11-blur_image.c:68-84 | the outer loop, column after column, fills the array with exactly the column-major layout of the axis intervals |
| Partitioner.DivideImageIntoPortions | multithreading/11-blur_image.c:56-87 | the layout loops with the allocation corrected: the array holds the column-major layout of portions, its length is the number filled, and that number is returned; an empty array and 0 when malloc fails |
| Partitioner.BlurImage | multithreading/11-blur_image.c:21-46 | once every portion is blurred, every destination pixel holds its blurred value; when malloc fails nothing changes |
| CString.StrLen | sockets/http_request_parser.c:49-50 | `strlen`: the count of characters before a NUL inside the buffer |
| CString.StrLenChars | sockets/http_request_parser.c:49-50 | no NUL comes before the one `strlen` stops at, so it is the first terminator |
| CString.CStr | sockets/todo_api_1.c:15-20 | the C string at p: characters that end at a NUL inside the buffer |
| CString.CStrChars | sockets/todo_api_1.c:15-20 | the C string is the run of buffer characters from p and holds no NUL |
| CString.SpanOf | sockets/http_request_utils.c:89-90 | the leading delimiters `strtok` skips; the character after them is not a delimiter |
| CString.SpanOfChars | sockets/http_request_utils.c:89-90 | everything skipped is a delimiter |
| CString.CSpanOf | sockets/http_request_utils.c:89-90 | the length of the token: the run ends at a NUL or a delimiter |
| CString.CSpanOfChars | sockets/http_request_utils.c:89-90 | no NUL and no delimiter lies inside the token |
| CString.CSpanExact | sockets/http_request_utils.c:89-90 | a run of non-delimiters that ends at a delimiter or NUL has exactly its own length as the token length |
| CString.StrTokFrom | sockets/http_request_utils.c:89-90 | `strtok`/`strtok_r` from a saved position: the buffer keeps its length and terminator, and the token lies between the position and the new saved position |
| CString.StrTokFrame | sockets/todo_api_1.c:17-19 | a call writes nothing before the position it resumes at |
| CString.StrTokNull | sockets/todo_api_1.c:18-19 | NULL is returned exactly when only delimiters remain before the NUL; it then writes nothing and saves the end of the string |
| CString.StrTokToken | sockets/http_request_utils.c:89-90 | a returned token has only delimiters before it, is non-empty and free of delimiters, and ends at the NUL or at a delimiter; that delimiter alone is overwritten, and scanning resumes after it |
| CString.TokenAtDelimiter | sockets/http_request_utils.c:89-90 | a token at p of length len followed by a delimiter is returned, with that delimiter overwritten by NUL |
| CString.TokenAtEnd | sockets/todo_api_1.c:15 | a token that runs to the end of the string is returned and nothing is written |
| CString.TokenPastEnd | sockets/todo_api_2.c:19 | at the end of the string NULL is returned and nothing changes |
| CString.SkipDelimiters | sockets/http_request_utils.c:89-90 | the skip loop stops where `SpanOf` says |
| CString.SkipToken | sockets/http_request_utils.c:89-90 | the scan loop stops where `CSpanOf` says |
| CString.StrTokR | sockets/todo_api_1.c:14-19 | the in-place `strtok_r` on the array equals `StrTokFrom` |
| CString.StrStr | sockets/http_request_parser.c:41-42 | `strstr`; `strchr` is a one-character needle; a match lies inside the buffer |
| CString.StrStrFirst | sockets/http_request_parser.c:41-42 | a found position holds the needle, and no earlier position in the string does; NULL means the needle starts nowhere before the terminator |
| CString.StrStrAt | sockets/http_request_utils.c:88 | an occurrence at j with no earlier one and no NUL before it is what `strstr` returns |
| HttpUtils.MethodFrom | sockets/http_request_utils.c:41-63 | the table scan from entry i yields the method whose name equals the string, or UNKNOWN when none does (both directions) |
| HttpUtils.MethodOf | sockets/http_request_utils.c:41-63 | `get_method` yields a method other than UNKNOWN exactly for the strings in the table, and method i exactly for name i; NULL gives UNKNOWN |
| HttpUtils.GetMethod | sockets/http_request_utils.c:41-63 | the scan loop computes `MethodOf` |
| HttpUtils.GetHeader | sockets/http_request_utils.c:11-18 | NULL exactly when no header has the field; otherwise the value of the first header with that field |
| HttpUtils.GetParam | sockets/http_request_utils.c:26-33 | NULL exactly when no parameter has the key; otherwise the value of the first parameter with that key |
| HttpUtils.HeaderViews | sockets/http_request_utils.c:73-101 | reading the nodes gives one field and value per node, in order |
| HttpUtils.ParamViews | sockets/http_request_utils.c:110-142 | reading the nodes gives one key and value per node, in order |
| HttpUtils.CutLine | sockets/http_request_utils.c:88-90 | one header line is cut: `strstr` for CRLF, `strtok` ":" and "\r\n", then +1 past the space; the buffer keeps its terminator, and a cut line's pointers and next line lie inside the buffer |
| HttpUtils.HeadersFrom | sockets/http_request_utils.c:78-100 | the header loop keeps the buffer's length and terminator, and every node points inside the buffer |
| HttpUtils.CutHeaderLine | sockets/http_request_utils.c:88-90 | the in-place cut of one line equals `CutLine` |
| HttpUtils.HttpHeadersInit | sockets/http_request_utils.c:73-101 | the in-place loop equals `HeadersFrom` on the buffer |
| HttpUtils.ParamsFrom | sockets/http_request_utils.c:119-135 | the parameter loop keeps the buffer's length and terminator, only appends nodes, and points inside the buffer |
| HttpUtils.ParamsInit | sockets/http_request_utils.c:110-142 | a NULL or empty string gives no parameters and leaves the buffer unchanged |
| HttpUtils.HttpParamsInit | sockets/http_request_utils.c:110-142 | the in-place loop equals `ParamsInit` |
| HttpUtils.CutParam | sockets/http_request_utils.c:119-121 | one `strtok` "=" then "&" pass in place equals two `StrTokFrom` steps |
| HttpUtils.CutWellFormedLine | sockets/http_request_utils.c:88-90 | a well-formed "field: value\r\n" line is cut at ':' and CR, and its node points at the field and at the value after the space |
| HttpUtils.HeadersFromFrame | sockets/http_request_utils.c:78-100 | the header loop keeps the buffer's length and writes nothing before the line it starts at |
| HttpUtils.ParamsFromFrame | sockets/http_request_utils.c:119-135 | the parameter loop keeps the buffer's length and writes nothing before the position it starts at |
| HttpUtils.HeadersRoundTrip | sockets/http_request_utils.c:73-101 | a block of well-formed header lines ending with an empty line reads back as exactly those headers, in order |
| HttpUtils.HeadersRoundTripAt | sockets/http_request_utils.c:78-100 | from any line of a well-formed block, the loop appends exactly those headers to the nodes already built |
| HttpUtils.HeadersRoundTripCons | sockets/http_request_utils.c:78-100 | a non-empty well-formed block reads back: its first line is cut, then the rest reads back |
| HttpUtils.HeadersStep | sockets/http_request_utils.c:85-97 | one well-formed line is cut and its node appended, and the loop goes on from the next line of the cut buffer |
| HttpUtils.CutStepSame | sockets/http_request_utils.c:85-97 | on a block, the loop from its first line is the loop from the next line of the cut buffer with that line's node appended |
| HttpUtils.CutStepReads | sockets/http_request_utils.c:85-97 | when the rest of the block reads back after the first line's node, the whole block reads back |
| HttpUtils.HeadersUnterminated | sockets/http_request_utils.c:78-100 | well-formed header lines with no empty line before the NUL give NULL: the nodes built are dropped |
| HttpUtils.ParamsRoundTrip | sockets/http_request_utils.c:110-142 | text of well-formed key=value pairs joined by '&' reads back as exactly those pairs, in order |
| HttpUtils.ParamsTailDropped | sockets/http_request_utils.c:118-122 | a trailing key with no '=' is dropped, because the loop stops when a value token is missing |
| HttpParser.RequestLine | sockets/http_request_parser.c:53-56 | the three `strtok` calls over the request line keep the buffer's terminator, and the URI points inside the buffer |
| HttpParser.QueryOf | sockets/http_request_parser.c:60-63 | the '?' of the URI is overwritten with NUL and what follows is parsed as parameters pointing inside the buffer |
| HttpParser.RequestInit | sockets/http_request_parser.c:33-65 | a NULL result leaves the buffer unchanged; a failed malloc gives NULL; a built request's `raw` is the text as received and its lists all point inside the buffer |
| HttpParser.RequestParsed | sockets/http_request_parser.c:49-64 | once the CRLF and CRLFCRLF are found, the result is never NULL; `raw` is the text as received and the lists point inside the buffer |
| HttpParser.SplitRequestLine | sockets/http_request_parser.c:53-56 | the in-place split equals `RequestLine` |
| HttpParser.ParseQuery | sockets/http_request_parser.c:60-63 | the in-place query split equals `QueryOf` |
| HttpParser.HttpRequestInit | sockets/http_request_parser.c:33-65 | the in-place parse equals `RequestInit` |
| HttpParser.ParseRequest | sockets/http_request_parser.c:49-64 | the in-place stages after the searches equal `RequestParsed` |
| HttpParser.RequestNull | sockets/http_request_parser.c:38-48 | the result is NULL exactly when malloc fails or the request holds no CRLFCRLF; the CRLF search never fails alone |
| HttpParser.BlankHasCrlf | sockets/http_request_parser.c:41-42 | a CRLFCRLF starts with a CRLF |
| HttpParser.RequestRoundTrip | sockets/http_request_parser.c:33-65 | for "method uri version CRLF headers CRLF body" with well-formed parts, the request is built and reads back the text, the method and its enum, the path (cut at '?'), the version, exactly the headers, the body (NULL when empty) with its parameters, and the query's parameters (none without '?') |
| HttpParser.RequestLayout | sockets/http_request_parser.c:33-65 | such a text, NUL-terminated, is a request buffer laid out part by part, and `strlen` of it is the text |
| HttpParser.LaidRoundTrip | sockets/http_request_parser.c:33-65 | any buffer laid out as such a request is built and reads back its parts |
| HttpParser.LaidStages | sockets/http_request_parser.c:41-64 | on a laid-out buffer both searches succeed, at the end of the request line and at the empty line, and the later stages read back the parts |
| HttpParser.SearchedRoundTrip | sockets/http_request_parser.c:38-48 | with the searches found, the read-back of the later stages is that of `http_request_init` |
| HttpParser.InitIsParsed | sockets/http_request_parser.c:38-48 | when both searches succeed, `http_request_init` with a successful malloc continues exactly as the later stages |
| HttpParser.RequestSearches | sockets/http_request_parser.c:41-42 | on a laid-out buffer the first CRLF ends the request line and the first CRLFCRLF begins at the end of the header lines |
| HttpParser.CrlfSearch | sockets/http_request_parser.c:41 | a CRLF with no CR and no NUL before it is the one `strstr` finds |
| HttpParser.BlankSearch | sockets/http_request_parser.c:42 | the CRLFCRLF `strstr` finds is the one right after the header lines |
| HttpParser.RequestLineWords | sockets/http_request_parser.c:53-56 | "method uri version\r" is split into three NUL-terminated words: the method at 0 with its enum, the URI and the version after the spaces; the text after the line is unchanged |
| HttpParser.LineCuts | sockets/http_request_parser.c:53-56 | the three `strtok` calls return the method, URI and version tokens in turn |
| HttpParser.TokenStep | sockets/http_request_parser.c:53-56 | a word followed by a delimiter is returned by `strtok`, its delimiter alone overwritten with NUL |
| HttpParser.LineStage | sockets/http_request_parser.c:53-56 | splitting the request line of a laid-out buffer reads back the three words and leaves the header block and the body in place |
| HttpParser.ParsedRoundTrip | sockets/http_request_parser.c:49-64 | on a laid-out buffer with the searches' positions, the later stages build a request that reads back its parts |
| HttpParser.ParsedAfterLine | sockets/http_request_parser.c:53-64 | after the request line is split, the headers, body and query stages read back their parts |
| HttpParser.LaterStages | sockets/http_request_parser.c:57-63 | headers, body and query, in order, read back the headers, the body text and parameters, the path and the query's parameters, and keep the request line's words |
| HttpParser.BlockStages | sockets/http_request_parser.c:57-59 | the header block reads back its headers, the body (NULL when empty) its parameters, and the request line is kept |
| HttpParser.HeadersStage | sockets/http_request_parser.c:57 | the header block after the request line reads back as the headers, and nothing outside the block is written |
| HttpParser.BodyStage | sockets/http_request_parser.c:58-59 | the body pointer is NULL exactly for an empty body, else the body text; its parameters read back and nothing before it is written |
| HttpParser.ParamsStage | sockets/http_request_parser.c:59 | `http_params_init` on a well-formed body reads back its parameters, writing only inside it |
| HttpParser.BodyCopy | sockets/http_request_parser.c:58 | the body pointer is NULL exactly for an empty body, and otherwise is the body text |
| HttpParser.UriStage | sockets/http_request_parser.c:60-63 | the URI reads back as its path and its query's parameters, or none when it has no '?' |
| HttpParser.QueryCut | sockets/http_request_parser.c:60-63 | for "path?query", the '?' is overwritten, the URI reads as the path and the parameters read back as the query's |
| HttpParser.QueryRead | sockets/http_request_parser.c:60-63 | where `strchr` finds the '?' after the path, the URI reads as the path and the query's parameters read back |
| HttpParser.QueryFound | sockets/http_request_parser.c:60-61 | `strchr` finds the '?' right after a path free of '?' |
| HttpParser.QueryTail | sockets/http_request_parser.c:62-63 | with the '?' cut, `http_params_init` on the rest reads back the query's parameters and the path is kept |
| HttpParser.QueryOfFound | sockets/http_request_parser.c:60-63 | where the '?' is found, the query stage is the NUL store followed by `http_params_init` after it |
| HttpParser.NoQuery | sockets/http_request_parser.c:60-63 | a URI without '?' is left alone and has no query parameters |
| HttpParser.ParsedOfStages | sockets/http_request_parser.c:49-64 | the later stages compose the request: `raw`, the line's pointers, the header nodes, the body pointer, and the two parameter lists |
| TodoApi1.QueryPairsFrom | sockets/todo_api_1.c:16-23 | the print loop keeps the buffer's terminator and only appends pairs |
| TodoApi1.ValueNeedsKey | sockets/todo_api_1.c:17-19 | a value token comes only after a key token |
| TodoApi1.PathAndValues | sockets/todo_api_1.c:10-24 | `print_path_and_values` keeps the buffer's length and terminator |
| TodoApi1.PrintPathAndValues | sockets/todo_api_1.c:10-24 | the in-place `strtok_r` passes print `PathAndValues` |
| TodoApi1.QueryPairsAt | sockets/todo_api_1.c:16-23 | the loop prints the laid-out pairs in order, after those printed before |
| TodoApi1.PathAndValuesRoundTrip | sockets/todo_api_1.c:10-24 | for "method path?k=v&...&k=v rest" with no '=' in the rest, the path and exactly the query's pairs are printed, in order |
| TodoApi1.NoQueryPath | sockets/todo_api_1.c:14-15 | without a '?' the path token runs to the end of the request and no pair is printed |
| TodoApi2.HeaderPairsFrom | sockets/todo_api_2.c:15-24 | the print loop keeps the buffer's terminator and only appends headers |
| TodoApi2.PastFirst | sockets/todo_api_2.c:18-22 | the string printed after `++` starts one character past the token and is NUL-terminated inside the buffer |
| TodoApi2.ValueNeedsField | sockets/todo_api_2.c:17-19 | a value token comes only after a field token |
| TodoApi2.HeaderInfo | sockets/todo_api_2.c:10-25 | `print_header_info` keeps the buffer's length and terminator |
| TodoApi2.PrintHeaderInfo | sockets/todo_api_2.c:10-25 | the in-place `strtok_r` passes print `HeaderInfo` |
| TodoApi2.HeadersEnd | sockets/todo_api_2.c:15-24 | at the empty line the remaining text is one field with no value, so the loop stops |
| TodoApi2.HeadersPrinted | sockets/todo_api_2.c:15-24 | the loop prints the laid-out headers in order, after those printed before |
| TodoApi2.HeaderInfoRoundTrip | sockets/todo_api_2.c:10-25 | for "line CRLF headers CRLF body" with no ':' in the body, exactly the headers are printed, field and value, in order |
| Elf.SymSize | nm_objdump/hnm-64.c:20 | sizeof the symbol entry: 16 bytes for Elf32_Sym, 24 for Elf64_Sym |
| Elf.AddrWidth | nm_objdump/hnm-64.c:124 | the address column is 8 hex digits for 32-bit files and 16 for 64-bit ones |
| Elf.Bind | nm_objdump/hnm-64.c:38 | `ELF64_ST_BIND`: the high nibble of the info byte |
| Elf.Type | nm_objdump/hnm-64.c:31 | `ELF64_ST_TYPE`: the low nibble |
| Elf.Info | nm_objdump/hnm-64.c:31-38 | an info byte built from a binding and a type decodes back to both |
| Elf.CheckHeader | nm_objdump/hnm-64.c:166-182 | the file is supported exactly when the class is ELFCLASS32 or ELFCLASS64 and the data is LSB or MSB; a bad endianness is reported only after the class check passes |
| Hnm.Lower | nm_objdump/hnm-64.c:117-120 | `tolower` maps capital letters to lower case and keeps other characters |
| Hnm.BaseLetter | nm_objdump/hnm-64.c:33-115 | the letter before lower-casing is one of ?ABCDRTUVWtuw; 'w' iff weak and undefined, 'U' iff not weak and undefined, 'A' iff not weak and absolute, 'C' iff not weak and common |
| Hnm.Letter | nm_objdump/hnm-64.c:33-120 | the letter is one of the listing's letters; for a non-LOCAL symbol it is the chain's letter unchanged |
| Hnm.UndefinedLetter | nm_objdump/hnm-64.c:38-120 | the weak test comes first: an undefined symbol is 'w' when weak, 'u' when local and 'U' otherwise |
| Hnm.WeakLetter | nm_objdump/hnm-64.c:38-55 | a weak symbol's letter ignores the section table: 'w' iff undefined, 'V' iff a defined object, 'W' otherwise |
| Hnm.LocalIsLowerGlobal | nm_objdump/hnm-64.c:116-120 | a LOCAL symbol gets the lower-cased letter of the same symbol bound GLOBAL |
| Hnm.HiddenAddress | nm_objdump/hnm-64.c:121-129 | the address is blanked exactly for undefined non-LOCAL symbols |
| Hnm.UnknownLetter | nm_objdump/hnm-64.c:33-106 | '?' is printed exactly for a reserved index other than ABS and COMMON, or for a PROGBITS section whose flags are not A, AX or AW |
| Hnm.Hex | nm_objdump/hnm-64.c:124 | `%016lx`/`%08x`: exactly w lower-case hex digits |
| Hnm.HexRoundTrip | nm_objdump/hnm-64.c:124 | the digits read back as the value modulo 16^w, hence as the value when it fits |
| Hnm.Address | nm_objdump/hnm-64.c:121-129 | the address field is the width of the class plus one space |
| Hnm.AddressColumn | nm_objdump/hnm-64.c:121-129 | the column holds the hex address, or spaces only for 'U' and 'w' |
| Hnm.AfterAddress | nm_objdump/hnm-64.c:124-128 | after the address column a line is the letter, a space, the name and a newline |
| Hnm.LineLayout | nm_objdump/hnm-64.c:121-129 | the full layout of a printed line: the address or blanks, a space, the letter, a space, the name up to its NUL, and a newline |
| Hnm.SameLineAfterAddress | nm_objdump/hnm-32.c:117-125 | the 32-bit and 64-bit printers agree after the address column |
| Hnm.Filtered | nm_objdump/hnm-64.c:31 | only symbols with a name that are not STT_FILE are kept |
| Hnm.FilteredAppend | nm_objdump/hnm-64.c:23-31 | filtering keeps table order: it distributes over concatenation |
| Hnm.FilteredMembers | nm_objdump/hnm-64.c:31 | a symbol is listed iff it is in the table, has a name and is not STT_FILE |
| Hnm.Listing | nm_objdump/hnm-64.c:23-131 | one line per listed symbol |
| Hnm.ListingLines | nm_objdump/hnm-64.c:23-131 | line j of the listing is the line of the j-th listed symbol |
| Hnm.PrintSymbolTable | nm_objdump/hnm-64.c:16-132 | the loop over the first sh_size / entry-size entries prints `Listing` of those entries |
| Hnm.FirstSymtab | nm_objdump/hnm-64.c:197-204 | the index of the first SHT_SYMTAB header, or none exactly when no header is SHT_SYMTAB |
| Hnm.FindSymtab | nm_objdump/hnm-64.c:196-204 | the search loop with `break` returns the first symbol table's index, or -1 exactly when there is none |
| Hnm.FirstSymtabIs | nm_objdump/hnm-64.c:197-204 | an index that has only non-symtab headers before it and is itself a symtab is the first one |
| Hnm.ProcessElfFile | nm_objdump/hnm-64.c:147-237 | in order: the open, format, endianness, allocation and "no symbols" errors, otherwise the listing; equals `Process` |
| Hnm.Process | nm_objdump/hnm-64.c:147-237 | a listing is printed exactly when the open, header check and malloc succeed and there is a symbol table, with one line per listed entry of the first table; a failed open reports "failed to open file" |
| Hnm.NoSymbols | nm_objdump/hnm-64.c:205-211 | "no symbols" is reported exactly when the file opened, its header passed, the allocation succeeded and no header is a symbol table |
| PyLong.Powers | 0x08_CPython/5-python.c:17-28 | 2^30 is the digit base, 2^60 is the weight of digit 2, and 2^64 is one past the largest `unsigned long` |
| PyLong.ValueBound | 0x08_CPython/5-python.c:28 | n base-2^30 digits are worth less than 2^(30n) |
| PyLong.ValueAtLeast | 0x08_CPython/5-python.c:28 | a normalised n-digit int is at least 2^(30(n-1)) |
| PyLong.Decimal | 0x08_CPython/5-python.c:39 | `%lu`: decimal digits without leading zeros |
| PyLong.DecimalRoundTrip | 0x08_CPython/5-python.c:39 | the printed digits read back as the number |
| PyLong.NumberText | 0x08_CPython/100-python.c:61-66 | `print_number`: '-' exactly for a negative int, then the decimal digits and a newline; never either message |
| Python5.ConvertsFits | 0x08_CPython/5-python.c:28 | the guard implies the magnitude fits an `unsigned long`; for a normalised int the converse holds, so the guard accepts exactly the ints below 2^64 |
| Python5.SumStep | 0x08_CPython/5-python.c:33 | one turn of the loop keeps `base10` equal to the partial value modulo 2^64 |
| Python5.PowStep | 0x08_CPython/5-python.c:34 | `pow_base_pylong` stays 2^(30i) modulo 2^64 |
| Python5.NoWrap | 0x08_CPython/5-python.c:28-35 | under the guard the wrapped sum is the exact magnitude |
| Python5.Printed | 0x08_CPython/5-python.c:12-45 | "Invalid Int Object" exactly for a non-int; for an int, the overflow message exactly when the guard rejects it |
| Python5.PrintPythonInt | 0x08_CPython/5-python.c:12-45 | prints "Invalid Int Object" for a non-int, the sign and exact magnitude under the guard, and the overflow message otherwise |
| Python100.ShiftCount | 0x08_CPython/100-python.c:82 | the shift count is below 64, and it is 30i for digits 0-2 |
| Python100.Calculated | 0x08_CPython/100-python.c:75-86 | `calculate_number`'s sum, modulo 2^64 at each step |
| Python100.CalculatedValue | 0x08_CPython/100-python.c:80-83 | with up to three digits the sum is the magnitude modulo 2^64 |
| Python100.CalculateNumber | 0x08_CPython/100-python.c:75-86 | the loop over |size| digits computes `Calculated`, which is the value modulo 2^64 up to three digits |
| Python100.PrintPythonInt | 0x08_CPython/100-python.c:20-53 | the printer is `Printed`: "Invalid Int Object", "0" for size 0, the overflow message for a sum of 0 past three digits, otherwise the signed sum |
| Python100.Printed | 0x08_CPython/100-python.c:20-53 | "Invalid Int Object" exactly for a non-int; the overflow message exactly for an int of more than three digits whose wrapped sum is 0 |
| Python100.SameAsFive | 0x08_CPython/100-python.c:20-53 | whenever the guard of 5-python.c holds, both programs print the same text |
| Python100.AsWrittenWraps | 0x08_CPython/100-python.c:35-44 | the normalised int 2^64 (digits 0, 0, 16) prints "0" |
| Python100.IntendedAsFive | 0x08_CPython/100-python.c:20-53 | the corrected printer agrees with 5-python.c on every normalised int |
| Python100.PrintedIntended | 0x08_CPython/100-python.c:20-53 | "Invalid Int Object" exactly for a non-int; for an int, the overflow message exactly at 2^64 or more |
| Python100.IntendedWhereNoWrap | 0x08_CPython/100-python.c:35-44 | where no sum wraps, the printer as written already prints what was intended |
| PrimeTasks.Task.constructor | multithreading/22-prime_factors.c:48-51 | a new task holds the entry and the parameter, is PENDING, and has a NULL result |
| PrimeTasks.CreateTask | multithreading/22-prime_factors.c:36-55 | NULL for a NULL entry or a failed malloc; otherwise a fresh PENDING task |
| PrimeTasks.Run | multithreading/22-prime_factors.c:103-121 | a run keeps the entry and parameter and never leaves a task PENDING; a task that was not PENDING is untouched |
| PrimeTasks.RunOutcome | multithreading/22-prime_factors.c:109-120 | a run task stores the entry's result, and ends SUCCESS iff that result is non-NULL and FAILURE iff it is NULL |
| PrimeTasks.RunTwice | multithreading/22-prime_factors.c:103 | running a task twice is the same as once: no entry is called twice |
| PrimeTasks.ExecTasks | multithreading/22-prime_factors.c:85-127 | returns NULL; every task among the first `size` nodes ends as `Run` leaves it, even when several nodes share it; no other task changes; the tasks started are exactly the first node of each PENDING task, in list order |

## Left out

- File and socket I/O is not modelled: `fopen`, `fread`, `fseek`, `accept`, `recv`, `send` and the servers' `main`. The bytes a read would give are parameters. A failed `fopen` is a boolean parameter, and so is the failure of these allocations: the request struct (`sockets/http_request_parser.c:35`), the section headers (`nm_objdump/hnm-64.c:185`), the portion array (`multithreading/11-blur_image.c:63`) and the task (`multithreading/22-prime_factors.c:43`). Every other allocation is assumed to succeed; the lines below name them.
- HttpUtils.HeadersFrom: the header-node `malloc` is assumed to succeed. Its failure path, which frees the nodes built so far and returns NULL (`sockets/http_request_utils.c:80-87`), is not modelled. It would give the same NULL outcome the model gives for a missing empty line.
- HttpUtils.ParamsFrom: the parameter-node `malloc` is assumed to succeed. Its failure path, which frees the list and returns NULL (`sockets/http_request_utils.c:124-130`), is not modelled.
- HttpParser.RequestInit: the unchecked `strdup` of the request text and of the body (`sockets/http_request_parser.c:52`, `:58`) is assumed to succeed, so `raw` is always the text and a non-empty body is always its copy. A failed `strdup` would leave NULL there.
- Hnm.ProcessElfFile: the unchecked `malloc`s of the symbol table and the string table (`nm_objdump/hnm-64.c:215`, `:224`) are assumed to succeed.
- Threads, the mutex and `tprintf` are not modelled. `blur_image` runs the portions in a sequential loop, which is sound because the portions are disjoint (`Partitioner.LayoutDisjoint`). `exec_tasks` runs on one thread. The `threads` array allocation is left out.
- Freeing memory (`destroy_task`, `list_destroy`, the `free` calls in hnm and `free_http_request`) is not modelled, because Dafny has no deallocation.
- The `printf` output is modelled as the strings or values printed, not as writes to a stream.
- multithreading.h (`PORTION_START_INDEX`, `PORTION_END_INDEX`, `pixel_t`) is not part of this model. The macros are read as `y * w + x` and `(y + h) * w`. Channels are unbounded integers, so narrowing to `pixel_t` is not modelled.
- Convolver.ApplyBlurToPixel: floats are modelled as reals, so `float` rounding is not captured.
- Convolver.ApplyBlurToPixel: when the weight sum is 0, C converts NaN or infinity to `int`, which is undefined. The model writes an arbitrary pixel, so the contract says nothing about that pixel beyond "no other pixel changes".
- Convolver.IsValidNeighbor: the `int` width of `neighbor_index` and `total_pixels` is not modelled. Images whose pixel count exceeds 2^31 are outside the model.
- Partitioner.DivideImageIntoPortions: this models the corrected allocation. The as-written count is `Partitioner.AsWrittenPortionCount` (see Findings).
- Hnm.PrintSymbolTable: requires the first sh_size / entry-size entries, their names and their section indexes to be readable. C reads out of bounds otherwise, which is undefined.
- Hnm.PrintSymbolTable: the `int` truncation of `symbol_count` is not modelled.
- Hnm.ProcessElfFile: `st_size`, `st_other` and the string-table header lookup through `sh_link` are not modelled. The string table is given directly.
- Hnm.ProcessElfFile: the 64-bit processor accepts ELFCLASS32 too, as the code does. Reading a 32-bit file through 64-bit structures is not modelled.
- Python100.PrintPythonInt: requires `ob_size` to fit in an `int`. The `(int)` cast of a larger `ob_size` is not modelled.
- Python100.ShiftCount: a shift of 64 or more is undefined in C. The model uses the x86-64 meaning (count modulo 64), and the overflow of `30 * i` for huge i is not modelled.
- PyLong: `PyLong_SHIFT` is fixed at 30, the 64-bit CPython setting.
- HttpUtils.HeadersRoundTrip: `HeaderOk` is a sufficient condition for a line to read back, not a necessary one.
- HttpParser.RequestInit: the code's undefined paths (pointer arithmetic on NULL, `strchr` on a NULL URI) are one outcome, `Undefined`, whatever C would do.
- TodoApi1.PathAndValues: `printf("%s", NULL)` for a missing path is modelled as a missing path, `None`.
- PrimeTasks.ExecTasks: the task's entry is modelled as the parameter `call`, a deterministic function of the entry and the parameter with no side effects. So two distinct PENDING tasks with the same entry and parameter are stated to end with the same result, whereas separate calls of an allocating entry such as `prime_factors` return distinct lists. Each task is still run at most once; that property does not depend on this abstraction.
- TodoApi2.HeaderPairsFrom: C increments the field pointer before the NULL test, and `NULL + 1` is undefined. The model does not form that pointer: a NULL field is always followed by a NULL value (`TodoApi2.ValueNeedsField`), so the loop stops without using it.
- HttpParser.RequestLine: its own contract only frames the buffer (length, terminator, URI inside it). What the split reads back is stated by `HttpParser.RequestLineWords` and `HttpParser.LineStage` for a well-formed line.
- HttpParser.QueryOf: its own contract only frames the buffer and the nodes. What the query reads back is stated by `HttpParser.QueryCut`, `HttpParser.QueryRead` and `HttpParser.UriStage`, and the no-'?' case by `HttpParser.NoQuery`.
- HttpParser.RequestParsed: its own contract states `raw` and the framing only. The read-back of every field is stated by `HttpParser.ParsedRoundTrip`, and for `http_request_init` by `HttpParser.RequestRoundTrip`.
- Partitioner.BlurImage: it uses the corrected partition (`Partitioner.DivideImageIntoPortions`). It agrees with the code as written only when the loops fill exactly the 16 entries allocated, FillCount(W, H) = 16, for example for every image at least 16 wide and 16 high (`Partitioner.WideImageFillsGrid`).

## Findings

| source | as written | input that shows it | evidently intended | confidence | as-written member | corrected member |
|---|---|---|---|---|---|---|
| 0x08_CPython/100-python.c:35-44 | `calculate_number` sums in an `unsigned long`, and the overflow message is printed only for a sum of 0 with more than three digits | the int 2^64: `ob_size` 3, digits [0, 0, 16]; the sum wraps to 0 and "0" is printed | the overflow message for every int of 2^64 or more, as 5-python.c prints it | not executed | Python100.AsWrittenWraps | Python100.PrintedIntended |
| multithreading/11-blur_image.c:59-86 | 16 entries are allocated and 16 returned whatever the image, while the loops fill (W / max(W/4,1)) · (H / max(H/4,1)) entries | a 10x16 image fills 20 entries (4 past the array); 7x7 fills 49; 2x2 fills 4 and hands 12 uninitialised portions to threads | allocate and return the number of portions the loops fill | not executed | Partitioner.AsWrittenCountMismatch | Partitioner.DivideImageIntoPortions |
