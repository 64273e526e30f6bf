# Grade analyzer — a Dafny model of the `/analyze` handler

The repository is a small Flask application. Its one piece of logic is the
`/analyze` request handler in `app.py`. The handler takes the `grades` form
field, a comma-separated list of numbers. It answers with one of two results:

- an error message;
- the statistics of the grades (mean, median, standard deviation, minimum,
  maximum and count), a histogram, and the grades themselves.

This project models that pipeline without the plotting and without the web
framework. It has three modules, each in its own file, plus a helper module:

- `tokenizer.dfy` (module `Tokenizer`) is the list comprehension at
  `app.py:67`.
  - `Split` models `str.split(',')`.
  - `Strip` models the argument-less `str.strip()`.
  - `Keep` models the `if x.strip()` filter.
  - `Tokens` composes the three.
  - `ParseAll` converts every token, all or nothing.
- `statistics.dfy` (module `Statistics`) gives the numpy reductions of the
  `stats` dictionary as their mathematical definitions over `seq<real>`.
  - `Sum`, `Min`, `Max` and `Mean`.
  - An insertion `Sort`, with the median taken as the middle of the sorted list.
  - The population variance, which divides by `n` like numpy's `ddof=0`.
  - `Describe` builds the record.
- `analyzer.dfy` (module `Analyzer`) holds the response.
  - `Response` is either `Failure(error)` or `Success(stats, grades)`.
  - `Respond` validates the token list and shapes the result.
  - `Analyze` is the handler from the raw string to the response.
- `wrappers.dfy` (module `Wrappers`) holds the `Option` type that models a
  partial conversion.

Python's `float()` is a parameter, `parse: string -> Option<real>`. `None`
stands for the `ValueError` it raises. The model does not commit to its
grammar.

Whitespace is the set of characters for which Python's `str.isspace()` is true.
These are the characters `str.strip()` removes: U+0009–U+000D, U+001C–U+0020,
U+0085, U+00A0, U+1680, U+2000–U+200A, U+2028, U+2029, U+202F, U+205F and
U+3000.

The two error messages are copied from the code, capitalisation included:
"Please enter valid grades" and "Please enter valid numeric grades separated
by commas".

## Model

| member | source | states |
|---|---|---|
| Tokenizer.IsWs | app.py:67 | the whitespace `str.strip()` removes: Python's `str.isspace()` set; space, tab, newline and carriage return belong to it and the comma separator never does |
| Tokenizer.Split | app.py:67 | splitting on `,` gives at least one segment; no segment contains a comma; joining the segments with `,` gives back the input exactly |
| Tokenizer.SplitCount | app.py:67 | there is exactly one more segment than there are commas in the input |
| Tokenizer.SplitUnique | app.py:67 | any comma-free list of parts that joins back to the input is the split of the input, so the split is determined by the round trip |
| Tokenizer.SplitEmpty | app.py:67 | the empty string splits into one empty segment |
| Tokenizer.SplitAppend | app.py:67 | splitting `x + "," + y` gives the segments of `x` followed by the segments of `y` |
| Tokenizer.TrimLeft | app.py:67 | `lstrip()` never lengthens the segment, and what it keeps does not start with whitespace |
| Tokenizer.TrimLeftSpec | app.py:67 | the leading part that is removed is all whitespace, and what is kept does not start with whitespace |
| Tokenizer.TrimRight | app.py:67 | `rstrip()` never lengthens the segment, and what it keeps does not end with whitespace |
| Tokenizer.TrimRightSpec | app.py:67 | the trailing part that is removed is all whitespace, and what is kept does not end with whitespace |
| Tokenizer.Strip | app.py:67 | a non-empty stripped segment starts and ends with a non-whitespace character; stripping never adds a comma |
| Tokenizer.StripSpan | app.py:67 | the stripped segment is a contiguous span of the segment, and everything outside the span is whitespace |
| Tokenizer.StripUnique | app.py:67 | any two spans that meet that description are the same string, so strip has exactly one possible result |
| Tokenizer.StripSurrounded | app.py:67 | stripping whitespace-padded text with no whitespace at either end gives back that text |
| Tokenizer.StripEmptyIff | app.py:67 | a segment strips to the empty string exactly when it is all whitespace |
| Tokenizer.Keep | app.py:67 | the filter keeps at most one token per segment, and every kept token is non-empty and trimmed |
| Tokenizer.KeepSepFree | app.py:67 | tokens kept from comma-free segments are comma-free |
| Tokenizer.KeepAppend | app.py:64-67 | filtering commutes with concatenation, so tokens keep the order of their segments |
| Tokenizer.KeepOne | app.py:67 | one segment gives its stripped form, or nothing when it is blank |
| Tokenizer.KeepFromSegments | app.py:67 | every kept token is the stripped form of some segment that is not blank |
| Tokenizer.KeepEmptyIff | app.py:67 | the filter keeps nothing exactly when every segment is blank |
| Tokenizer.Tokens | app.py:67 | every token of the form field is non-empty, trimmed and comma-free |
| Tokenizer.TokensAppend | app.py:67 | the tokens of `x + "," + y` are the tokens of `x` followed by the tokens of `y` |
| Tokenizer.TokensSkipBlank | app.py:64-67 | a blank segment before a comma is dropped rather than treated as an error |
| Tokenizer.TokensBlankAfter | app.py:64-67 | a blank segment after a comma, such as the one a trailing comma leaves, is dropped |
| Tokenizer.TokensOfFormat | app.py:67 | writing tokens out as `a, b, c` with any whitespace gap and tokenizing the result gives back exactly those tokens |
| Tokenizer.TokensEmptyIff | app.py:67 | there are no tokens exactly when the input consists only of commas and whitespace |
| Tokenizer.ParseAll | app.py:67 | the conversion succeeds exactly when every token converts; the result then has one number per token, in token order |
| Tokenizer.TokensOfThree | app.py:67 | three tokens written as `a, b, c` tokenize back to exactly `a`, `b`, `c`, whatever the tokens say |
| Tokenizer.TokensSparse | app.py:67 | the tokens of `70, ,80,` are `70` and `80` |
| Statistics.Min | app.py:81 | the minimum is an element of the list and no element is smaller |
| Statistics.Max | app.py:82 | the maximum is an element of the list and no element is larger |
| Statistics.SumBounds | app.py:78 | if every element lies in `[lo, hi]` then the sum lies between `n*lo` and `n*hi` |
| Statistics.Mean | app.py:78 | `np.mean` is the sum over the count; it is no smaller than some grade and no larger than some grade |
| Statistics.MeanBounds | app.py:78 | if every grade lies in `[lo, hi]` then so does the mean |
| Statistics.MeanTimesCount | app.py:78 | the mean times the count is the sum |
| Statistics.ConstantMean | app.py:78 | a list of equal elements has that element as its mean |
| Statistics.Insert | app.py:79 | inserting into a sorted list keeps it sorted and adds exactly the new element to its multiset |
| Statistics.Sort | app.py:79 | the sorted list is ordered and is a permutation of the input |
| Statistics.SortedPermutationUnique | app.py:79 | two sorted permutations of the same multiset are equal, so the median does not depend on the sorting algorithm |
| Statistics.MedianOfSortedPermutation | app.py:79 | the median is the middle element, or the mean of the two middle elements, of any sorted permutation of the grades |
| Statistics.Median | app.py:79 | `np.median` is the middle of the sorted grades, and it lies between the minimum and the maximum |
| Statistics.Variance | app.py:80 | the square of `np.std`: the mean squared deviation from the mean, dividing by `n`; it is never negative, and zero exactly when all grades are equal |
| Statistics.StdZeroIffConstant | app.py:80 | a non-negative square root of the variance is zero exactly when all grades are equal |
| Statistics.Describe | app.py:77-84 | the record has count `n`, a minimum and a maximum that occur in the list and bound it, mean and median between them, a non-negative variance that is zero exactly for constant lists |
| Statistics.SingleGrade | app.py:77-84 | one grade is its own mean, median, minimum and maximum, with zero variance and count 1 |
| Statistics.ThreeGrades | app.py:77-84 | the grades 70, 80 and 90 have mean and median 80, variance 200/3, minimum 70, maximum 90 and count 3 |
| Analyzer.Respond | app.py:67-71 | for every token list: the numeric-grades error exactly when some token fails to convert; otherwise the valid-grades error exactly when there are no tokens; otherwise success with one grade per token in order and the statistics of those grades |
| Analyzer.Analyze | app.py:60-128 | no message other than the two fixed ones; the valid-grades error exactly when the input is only commas and whitespace, whatever `float()` does; the numeric error exactly when some token fails to convert; otherwise success, where the grades are the converted tokens in order and the statistics are theirs |
| Analyzer.RespondGrades | app.py:120-124 | when every token converts, the success payload echoes exactly the converted grades together with their statistics |
| Analyzer.ExampleThreeGrades | app.py:67-84 | `70, 80, 90` gives the grades `[70, 80, 90]` with mean 80, median 80, variance 200/3, minimum 70, maximum 90, count 3 |
| Analyzer.ExampleBadToken | app.py:126-128 | `70, abc, 90` with `abc` not a number gives the numeric-grades error and no statistics |
| Analyzer.ExampleSparse | app.py:64-67 | `70, ,80,` succeeds with the grades `[70, 80]` |
| Analyzer.ExampleBlank | app.py:69-71 | `""`, `"   "` and `" , ,  "` give the valid-grades error |
| Analyzer.ExampleSingleGrade | app.py:77-84 | `85`, bare or as ` 85 `, gives one grade, 85, as mean, median, minimum and maximum, with zero variance |

## Left out

- Flask routing, template rendering, reading the form field and the
  development-server entry point (`app.py:28-36`, `app.py:62`,
  `app.py:134-139`) are framework I/O. `Analyze` starts from the string that
  `request.form['grades']` returns.
- The histogram is left out (`app.py:87-117`): the figure, the mean and median
  marker lines, PNG rendering and base64 encoding. These are calls into
  matplotlib and the base64 library, and their result is an opaque image.
  The matplotlib backend setting (`app.py:20`) is left out for the same reason.
- The response has no `plot` field, because the image is not modelled.
- The catch-all `except Exception` branch (`app.py:129-131`) is not modelled.
  It would turn any other exception into its message, for example the
  `KeyError` from a missing form field. Nothing in the modelled pipeline can
  raise one.
- The grammar of Python's `float()` is not modelled. This includes signs,
  exponents, underscores, `"nan"` and `"inf"`. The conversion is the `parse`
  parameter. Non-finite values are covered by a line below.
- Floating-point rounding and overflow are not modelled: grades are `real`.
  numpy's summation order does not arise, and no value overflows to ±inf.
  For `"1e200, -1e200"` the code squares the deviations to `inf` in `np.std`
  (`app.py:80`) and answers with `std` equal to `inf`; the model gives the
  exact variance `1e400`.
- Non-finite grades: `float()` accepts `"inf"` and `"nan"`, but such a value
  makes the histogram at `app.py:91` raise `ValueError` (its automatic range
  is not finite), and `app.py:126-128` turns that into the numeric-grades
  error. A `parse` that answers `None` for text naming a non-finite value
  therefore reproduces the code's answer for it.
- `Success` assumes that the left-out plotting step (`app.py:87-117`) does
  not raise. An exception there would replace the success with the
  numeric-grades error or with the exception's message.
- Statistics.Describe: reports the population variance where the source
  reports `np.std`, its square root. `sqrt` has no exact counterpart on
  `real`. `IsStdOf` states the relation (a non-negative number whose square
  is the variance), and `StdZeroIffConstant` states what carries over.
- JSON serialisation of the response is left out.
