# GPS coordinate codec of the route-photo scripts

Three Python scripts tag route photographs with GPS coordinates taken from a
reference table:
- `ProcessRoutes.py` handles whole route folders.
- `Test.py` handles a single folder and can either validate or write.
- `Validate.py` checks an output folder.

All three share one codec, which converts between two forms:
- a decimal-degree reference value, read from a table cell as a Python
  `Decimal`;
- the EXIF GPS triple of rationals (degrees, minutes, seconds).

Around the codec sit some small decision rules:
- which files are processed, and which table row a file name selects;
- how the GPS directory of an image is updated;
- how an image is classified against its reference: 1 for a match, -1 for a
  mismatch, 0 when coordinates are missing;
- how the batch loops tally those outcomes.

This project models that core in Dafny and proves its properties.

Modules, in dependency order:
- `Arith`: truncating quotient and remainder (as `Decimal`'s `int()` and
  `%` behave), Euclid's gcd, and lowest terms.
- `Results`: `Option`, and `Result` with the exceptions the scripts raise on
  the modelled paths.
- `Codec`: a reference value `Dec(mantissa, scale)` stands for the exact
  decimal `mantissa / 10^scale`. This module holds the encoder
  `convertDegreesToDMS`, the bridge form `convertDegreesToDMSBridge`, and
  the decoder `convertDMSToDD`, both exact and quantized to ten fractional
  digits (half-even).
- `GpsTags`: the GPS directory as a map from EXIF GPS tag number to value,
  and the update `setGPSData` makes.
- `Validation`: the three-way `validateGPSData` of the route and
  single-folder scripts, and the quantized comparison of the validation
  script.
- `FileNames`: eligibility rules and key derivation (`split('-')[0]`,
  `[0:3]`, `upper()`).
- `RouteLoop`, `TestLoop`, `ValidateLoop`: the per-file loops of the three
  scripts, with the reference table given as a map.

Three behaviours of the code are worth knowing:
- **Positive reference longitude.** The longitude is stored unsigned with
  reference `W` and read back negated. So a positive reference longitude
  is classified -1 (`Validation.WriteThenValidate`).
- **Worked seconds value.** For `38.529057` the seconds entry is
  111513/2500 (`Codec.EncodeExample`).
- **Denominators ignored.** The decoder reads only the numerators of the
  degree and minute entries (`Codec.DecodeIgnoresDenominators`). Every
  triple the scripts write has denominator 1 there, so the scripts' own
  round trip is unaffected.

## Model

| member | source | states |
|---|---|---|
| Arith.TruncDiv | ProcessRoutes.py:201 | `int()` of a `Decimal` truncates toward zero: the magnitude is the floor of the magnitude, and the sign follows the dividend |
| Arith.TruncMod | ProcessRoutes.py:202-203 | `Decimal`'s `% 1` (scaled) keeps the dividend's sign, and its magnitude is the plain remainder of the magnitude |
| Arith.TruncNeg | ProcessRoutes.py:201-203 | negating the dividend negates both the truncated quotient and the remainder |
| Arith.ReducedIsLowest | ProcessRoutes.py:206 | dividing numerator and denominator by their gcd leaves a fraction in lowest terms with a positive denominator |
| Codec.IntegerRatio | ProcessRoutes.py:206 | `as_integer_ratio` of a non-negative ratio: same value, non-negative numerator, lowest terms |
| Codec.DegreesToDms | ProcessRoutes.py:195-207 | the triple has denominator 1 on degrees and minutes, degrees = floor of \|v\|, minutes in 0..59, seconds in [0, 60) with a positive denominator and in lowest terms |
| Codec.SignBlind | ProcessRoutes.py:200-206 | `v` and `-v` give the identical triple |
| Codec.EncodeExample | ProcessRoutes.py:195-207 | `38.529057` encodes as ((38,1),(31,1),(111513,2500)) |
| Codec.DmsToDecimal | ProcessRoutes.py:183-192 | fails exactly when the seconds denominator is zero; non-negative entries decode to a non-negative value; an in-range triple decodes to a value whose floor is its degrees |
| Codec.DecodeIgnoresDenominators | ProcessRoutes.py:185-186 | the degree and minute denominators never change the decoded value |
| Codec.RoundTrip | ProcessRoutes.py:183-207 | decoding the encoded triple gives back \|v\| exactly |
| Codec.DegreesToDmsBridge | Test.py:176-187 | the untruncated minutes lie in [0, 60) and degrees + minutes/60 == \|v\| |
| Codec.RoundHalfEven | Validate.py:71 | the rounded integer is within one half of its argument, and a tie goes to the even neighbour |
| Codec.Quantize10 | Validate.py:71 | the quantized value has at most ten fractional digits and is within half a unit of the tenth digit of its input; at exactly half a unit it is the neighbour whose tenth digit is even |
| Codec.QuantizeIdempotent | Validate.py:71 | quantizing a quantized value changes nothing |
| Codec.QuantizeKeeps | Validate.py:54-55 | a value with at most ten fractional digits is left alone by quantizing |
| Codec.QuantizeOdd | Validate.py:52-55 | quantizing commutes with negation, so negating the decoded longitude before or after quantizing is the same |
| Codec.QuantizeEqualClose | Validate.py:59-60 | two values with equal quantizations differ by at most one unit of the tenth fractional digit |
| Codec.QuantizeTieAbsorbs | Validate.py:59-71 | `+0.5e-10` and `-0.5e-10`, one unit of the tenth digit apart, both quantize to zero: ties round to even, and the one-unit bound of `Codec.QuantizeEqualClose` is tight |
| Codec.DmsToDecimalQuantized | Validate.py:63-71 | fails exactly when the exact decoder does; otherwise the result has ten fractional digits at most, is fixed by quantizing, and is within half a unit of the exact decoded value |
| Codec.QuantizeFewDigits | Validate.py:54-55 | a reference value with at most ten fractional digits, and its magnitude, are unchanged by quantizing |
| Codec.RoundTripQuantized | Validate.py:63-88 | for at most ten fractional digits, the quantized decoder gives back \|v\| exactly |
| GpsTags.EncodeDms | ProcessRoutes.py:220-223 | a stored triple is read back unchanged |
| GpsTags.ReadDms | ProcessRoutes.py:185-187 | indexing the three entries succeeds exactly on a rational tuple of at least three items |
| GpsTags.ReadTagDms | ProcessRoutes.py:135 | reading an absent tag fails with that tag's lookup error |
| GpsTags.ReadAxis | ProcessRoutes.py:135-138 | reading and decoding a tag succeeds exactly when the tag is present, is a rational triple and has a non-zero seconds denominator |
| GpsTags.SetGps | ProcessRoutes.py:219-238 | with both cells filled: exactly the four coordinate tags are added or overwritten, the references become `N` and `W`, the two triples are the encodings of the reference values, and every other tag is kept; with an empty cell the directory is unchanged |
| GpsTags.WriteThenRead | ProcessRoutes.py:133-139 | reading back a written directory gives the magnitudes of the reference values |
| GpsTags.SetGpsGated | Test.py:130-155 | the updated directory is handed on for saving exactly when `writeFlag == 1`, and it is the same update as in the route script |
| Validation.Outcome.Code | ProcessRoutes.py:159-166 | the returned integer is 1 exactly for a match, -1 exactly for a mismatch and 0 exactly for missing coordinates |
| Validation.ValidateGps | ProcessRoutes.py:126-166 | `Missing` exactly when a reference cell is empty, and then regardless of the image; `Match` exactly when the decoded latitude and the negated decoded longitude equal the reference; it raises exactly when a cell-filled entry meets an unreadable tag. Test.py:202-243 is the same function |
| Validation.ExpectedOutcome | ProcessRoutes.py:105-110 | reference definition of the outcome after writing: `Missing` exactly when a cell is empty, otherwise `Match` exactly when the latitude is its own magnitude and the longitude the negation of its magnitude |
| Validation.WriteThenValidate | ProcessRoutes.py:105-110 | validating right after writing gives `Missing` for an empty cell, otherwise `Match` exactly when latitude >= 0 and longitude <= 0 |
| Validation.ReadAxisQuantized | Validate.py:48-52 | one axis read and quantized: fails as the exact read does, otherwise the quantization of the exact decoded value |
| Validation.ValidateQuantized | Validate.py:43-60 | completes exactly when both cells are filled and both tags decode; a reported equality means the exact decoded value (negated for longitude) is within one unit of the tenth digit of the reference |
| Validation.QuantizedComparisonClose | Validate.py:59-60 | equal quantizations, with or without the longitude's negation, bound the exact difference by one unit of the tenth digit |
| Validation.QuantizedOnDecoded | Validate.py:48-60 | once both tags read and quantize, the two printed comparisons are those quantized values against the quantized reference cells, the longitude negated |
| Validation.QuantizedAfterWrite | Validate.py:43-88 | on a written directory, with at most ten fractional digits, the latitude comparison holds exactly when latitude >= 0 and the longitude comparison exactly when longitude <= 0 |
| FileNames.EligibleExamples | ProcessRoutes.py:97 | a route file is processed when it ends in `.jpg` and does not start with `EndSlate` or `OpenSlate`, both tests case-sensitive: `A12-0001.jpg`, `a12.jpg` and `endslate-1.jpg` are processed, and `EndSlate-A12.jpg`, `OpenSlate.jpg`, `A12-0001.JPG`, `A12-0001.jpeg` and `.jp` are skipped. Test.py:88 is the same rule |
| FileNames.LocationKey | ProcessRoutes.py:98 | the key is the longest prefix without `-`, followed by `-` or the end of the name |
| FileNames.LocationKeySplit | ProcessRoutes.py:98 | a name `key-rest` yields `key`, and a name without `-` is its own key |
| FileNames.UpperChar | ProcessRoutes.py:103 | lower-case ASCII letters map to their upper-case letters, and every other character is kept |
| FileNames.Upper | ProcessRoutes.py:103 | upper-casing keeps the length and maps every character |
| FileNames.LookupKey | ProcessRoutes.py:98-103 | the table key is the upper-cased location: no longer than the name, each character the upper case of the name's character at that position, none of them `-`, and followed by `-` or the end of the name (upper case of ASCII letters; see "## Left out") |
| FileNames.UpperIdempotent | ProcessRoutes.py:103 | upper-casing an upper-cased key changes nothing |
| FileNames.ValidateKey | Validate.py:21-23 | the key is the first three characters (fewer for a shorter name), each upper-cased, and for a validated file it starts with `I` |
| FileNames.ValidateEligibleExamples | Validate.py:18-23 | a file is validated when it ends in `.jpg` and starts with lower-case `i`: `i05-0001.jpg` and `i.jpg` are, `I05-0001.jpg` and `i05-0001.png` are not, and `i05-0001.jpg` selects the row `I05` |
| RouteLoop.Tally | ProcessRoutes.py:109-116 | the outcome's location is appended to that outcome's list and to no other. Test.py:98-105 is the same tally |
| RouteLoop.FirstUnknown | ProcessRoutes.py:97-103 | the first eligible file whose upper-cased key has no row: every key before it is known, and it is `\|files\|` exactly when all keys are known |
| RouteLoop.RoutedPartition | ProcessRoutes.py:107-116 | the three lists together have exactly as many entries as there are eligible files |
| RouteLoop.ProcessRoute | ProcessRoutes.py:94-118 | the run raises exactly when an eligible file's key is missing from the table, and then with the key of the first such file; otherwise each list holds, in order, the locations whose written-then-validated outcome is that list's, and `imageCount` counts the eligible files. In both cases the folder is left with every eligible image before the first missing key rewritten and every other image untouched |
| TestLoop.TestStep | Test.py:88-112 | a skipped file changes nothing; an eligible file succeeds exactly when its key is in the table and, in validate mode, its image validates, raises that key's lookup error when the key is missing, adds one to `imageCount`, and touches only the lists in validate mode and only the images for saving otherwise |
| TestLoop.TestRun | Test.py:83-112 | a completed run found every eligible file's key, and its `imageCount` is the number of eligible files |
| TestLoop.TestRunCounts | Test.py:83-112 | in a completed validate-mode run the list lengths sum to `imageCount`; otherwise the lists stay empty, and images are handed on for saving, one per eligible file, only when `writeFlag == 1` |
| TestLoop.TestRunFailures | Test.py:88-95 | outside validate mode the run fails exactly when an eligible file's key is missing, and then with a lookup error |
| TestLoop.TestRunStops | Test.py:83-110 | outside validate mode a failed run fails at the first eligible file with an unknown key, with that key; the files before it complete, and in write mode they have handed on exactly their rewritten images |
| TestLoop.TestRunWrites | Test.py:106-108 | in write mode the images handed on are exactly the eligible images after the route script's update |
| TestLoop.TestRunClassifies | Test.py:97-105 | in validate mode each list holds, in order, the locations whose image validates to that list's outcome |
| ValidateLoop.ValidateStep | Validate.py:18-28 | a skipped file adds nothing; a validated file succeeds exactly when its key is in the table and the quantized comparison completes, raises that key's lookup error when the key is missing, and on success appends one check for that file after the earlier ones, its row having both cells filled |
| ValidateLoop.ValidateRun | Validate.py:14-28 | a completed run found, for every validated file, its key in a row with both cells filled |
| ValidateLoop.ValidateRunCovers | Validate.py:14-28 | a completed run reports one check per file ending `.jpg` and starting with `i`, in order, each carrying that file's quantized comparison against the row its three-character key selects |

## Left out

- Reading and writing images (`piexif.load`, `dump` and `insert`, PIL `Image.open`) is foreign binary code. The GPS directory is an abstract map, and no byte-level preservation or atomicity is claimed.
- The spreadsheet and CSV readers are not modelled. Neither are directory listing, folder creation, file copies, `getmtime`/`ctime`, argument parsing and printing. The reference table and the file list are inputs, and the loops' reports stand in for the printed summaries.
- `Decimal(str)` parsing is not modelled. A reference cell arrives already as `Dec(mantissa, scale)`, and an empty cell as `None`. A cell that is neither empty nor numeric is not modelled.
- Arithmetic is exact; the scripts' `Decimal` contexts are not modelled:
  - ProcessRoutes.py and Test.py set a 20-digit context, and Validate.py uses the default 28 digits.
  - The encoder's operations are exact under 20 digits for |v| < 1000 with at most ten fractional digits.
  - The decoder's divisions can round in either context.
  - So `Codec.RoundTrip` and `Validation.WriteThenValidate` hold for exact arithmetic. They do not claim that a rounded decimal happens to equal the reference.
- `Codec.DmsToDecimalQuantized`: rounds the exact value once, whereas the script quantizes a value the context has already rounded.
- FileNames.UpperChar, FileNames.Upper, FileNames.LookupKey, FileNames.ValidateKey: upper-casing covers ASCII letters only. Python's `str.upper()` also maps non-ASCII letters and can change the length (`'ß'` becomes `'SS'`), so the stated contracts (other characters kept, length kept, the key's characters position by position) describe Python only for ASCII names. For a name such as `ßa-1.jpg` the model looks up `ßA` where the scripts look up `SSA`, so the found-or-`KeyError` decision of `RouteLoop.FirstUnknown`, `RouteLoop.ProcessRoute`, `TestLoop.TestStep` and `ValidateLoop.ValidateStep` matches the scripts only for ASCII keys.
- EXIF stores numerator and denominator as unsigned 32-bit integers. The model's integers are unbounded, and a seconds fraction that does not fit is not rejected.
- Validation in the route and single-folder scripts reads the image file. The model reads the directory that the loop holds in memory. For the route loop this is the directory it just wrote.
- `Test.py` only calls `convertDegreesToDMSBridge` for verbose output, so the bridge form is modelled on its own (`Codec.DegreesToDmsBridge`) and not wired into a loop.
- The verbose flag affects only printing, and is not modelled.
- TestLoop.TestRunFailures, TestLoop.TestRunStops: stated outside validate mode only. In validate mode a validation error (an unreadable GPS tag) can also end the run, and for that mode `TestLoop.TestStep` states the per-file condition and `TestLoop.TestRun` the "completed run found every key" direction.
