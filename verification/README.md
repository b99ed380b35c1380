# formatPrice: a Dafny model of the price helpers

This project models the helpers module of a small webpack demo application. The module has two parts:

- `couponCodes` is a fixed list of three coupon codes.
- `formatPrice(price)` returns `'$'` followed by `price.toFixed(2)`. A global regular-expression replace, `/(\d)(?=(\d{3})+\.)/g` → `'$1,'`, puts a comma after every integer digit that has a positive multiple of three digits between it and the decimal point.

The model has five modules:

- `Text` covers characters and strings. `IsDigit` is the regular-expression class `\d`. It also defines removing a character (`Without`), counting one (`Count`, `DigitCount`) and splitting on a separator (`SplitOn`, `Flatten`).
- `Decimal` writes a price as `toFixed(2)` does (`Fixed`). The price is a whole number of cents and may be negative. `ParseFixed` reads such a string back into cents. It is the partner used for the round trips in both directions.
- `SeparatorRegex` models the replace. Each match consumes exactly one digit and the lookahead consumes nothing, so the global replace tests every position of the original string, left to right. The lookahead looks forward only, so testing position `i` is testing the start of the suffix `s[i..]`. The lookahead body `(\d{3})+\.` is the recursive predicate `GroupsThenDot`.
- `Grouping` gives two independent definitions of thousands grouping:
  - `Group` takes three digits off the right and recurses.
  - `GroupByPosition` walks from the left and puts a comma after a digit when a positive multiple of three digits follows it.

  The module proves the two equal, and states the shape of the grouped string.
- `Helpers` holds `FormatPrice`, the coupon list and the properties of the whole formatter. Its partner is `ParsePrice`, which removes the commas and parses the rest.

The main results are:

- The regular-expression replace on a fixed-point string equals grouping the integer digits by thousands from the right. The sign, the point and the fraction are left untouched (`SeparatorRegex.ReplaceGroupsThousands`, `Helpers.FormatPriceGrouped`).
- The formatted price reads back as the amount it was written for (`Helpers.FormatParseRoundTrip`).
- Removing the commas gives the `toFixed(2)` string exactly (`Helpers.FormatPriceOnlyInsertsCommas`).

Negative amounts are part of the model. The source applies no guard: `toFixed(2)` writes a leading `-`, and the pattern cannot match on it because `-` is not a digit. So `formatPrice(-5000.5)` is `"$-5,000.50"`, and the model follows the code.

## Model

| member | source | states |
|---|---|---|
| Decimal.Show | example-code/helpers.js:6 | The integer part is written as canonical decimal digits: at least one digit, and no leading zero unless the part is "0". |
| Decimal.ValueOfShow | example-code/helpers.js:6 | Reading the written integer digits back as a decimal number gives the number that was written. |
| Decimal.ShowValue | example-code/helpers.js:6 | Writing the value of any canonical digit string gives back that digit string, so the integer writer is a bijection onto canonical digits. |
| Decimal.ShowLength | example-code/helpers.js:6 | The integer part has at most three digits exactly when it is below 1000. |
| Decimal.ValueOfTwoDigits | example-code/helpers.js:6 | The two fraction digits, zero-padded as `toFixed(2)` writes them, read back as the number of cents they were written for. |
| Decimal.TwoDigitsOfValue | example-code/helpers.js:6 | Any two digits read as a number below 100 and are written back unchanged. |
| Decimal.UnsignedRoundTrip | example-code/helpers.js:6 | Integer digits, a point and two fraction digits form a well-formed unsigned fixed-point string that parses to 100·integer + fraction. |
| Decimal.FixedRoundTrip | example-code/helpers.js:6 | `toFixed(2)` of an amount of cents is well formed (optional minus, canonical integer digits, point, exactly two digits, no minus on zero) and parses back to the same amount. |
| Decimal.ParseFixedRoundTrip | example-code/helpers.js:6 | Conversely, every well-formed fixed-point string parses, and writing the parsed amount gives back that same string. |
| SeparatorRegex.NoDotUnchanged | example-code/helpers.js:6 | The lookahead needs a point ahead, so the replace changes nothing in a string without one, such as the fraction digits. |
| SeparatorRegex.LookaheadCountsDigits | example-code/helpers.js:6 | On integer digits followed by the point and the fraction, `(\d{3})+\.` matches exactly when the number of integer digits ahead is a positive multiple of three. |
| SeparatorRegex.ReplaceOnFixed | example-code/helpers.js:6 | On integer digits, a point and fraction digits, the global replace puts a comma after each digit followed by a positive multiple of three digits and leaves the point and the fraction alone. |
| SeparatorRegex.ReplaceGroupsThousands | example-code/helpers.js:6 | The same replace equals grouping the integer digits in threes from the right. |
| SeparatorRegex.NonDigitPrefix | example-code/helpers.js:6 | A prefix without digits, such as the minus sign, is copied unchanged and does not affect the replace on what follows. |
| SeparatorRegex.ReplaceOnlyInsertsCommas | example-code/helpers.js:6 | On any string, removing commas from the replace's output gives the input with its own commas removed; the replace only ever inserts commas. |
| Grouping.GroupIsPositional | example-code/helpers.js:6 | Grouping from the right in threes equals placing a comma after each digit that has a positive multiple of three digits after it. |
| Grouping.GroupOnlyInsertsCommas | example-code/helpers.js:6 | The grouped string has only digits and commas. It starts and ends with a digit, and removing the commas gives the digits back in order. |
| Grouping.GroupCommaCount | example-code/helpers.js:6 | There is one comma for each full group of three after the first group, and grouping changes nothing exactly when there are at most three digits. |
| Grouping.CommaAfterDigitIff | example-code/helpers.js:6 | At every digit of the grouped string, a comma follows exactly when the digits after it number a positive multiple of three (both directions). |
| Grouping.CommasBetweenDigits | example-code/helpers.js:6 | Every comma has a digit on each side: none leads or trails, and no two are adjacent. |
| Grouping.GroupSizes | example-code/helpers.js:6 | Split at its commas, the grouped string is a first group of one to three digits followed by groups of exactly three, and the groups spell the original digits. |
| Helpers.FormatPriceGrouped | example-code/helpers.js:5-7 | `formatPrice` is "$", the sign, the integer digits grouped in threes from the right, the point and the two fraction digits. |
| Helpers.FormatPriceOnlyInsertsCommas | example-code/helpers.js:6 | The output starts with "$". Removing the commas after it gives exactly the `toFixed(2)` string. |
| Helpers.FormatParseRoundTrip | example-code/helpers.js:5-7 | The formatted price reads back as the amount it was written for, so no two amounts share a formatted price. |
| Helpers.FormatPriceFraction | example-code/helpers.js:6 | The output has exactly one point. It is followed by exactly the two fraction digits, with no separator among them. |
| Helpers.FormatPriceCommaCount | example-code/helpers.js:6 | The output holds one comma per full group of three integer digits after the first. |
| Helpers.FormatPriceShortUnchanged | example-code/helpers.js:6 | The output is "$" plus the plain `toFixed(2)` string exactly when the magnitude is below 1000.00. |
| Helpers.FormatPriceCommasBetweenDigits | example-code/helpers.js:6 | Every comma in the output sits between two digits: none after "$" or the sign, none before the point, none in the fraction. |
| Helpers.FormatPriceDemo | example-code/app.js:28 | The demo page's `formatPrice(5000)` (500000 cents) is "$5,000.00". |
| Helpers.FormatPriceZero | example-code/helpers.js:6 | Zero is formatted as "$0.00". |
| Helpers.FormatPriceTwoGroups | example-code/helpers.js:6 | 999999 is formatted as "$999,999.00": one separator and none next to the point. |
| Helpers.FormatPriceNegative | example-code/helpers.js:6 | A negative amount keeps its minus sign in front of the grouped digits: "$-5,000.50". |
| Helpers.CouponCodesFixture | example-code/helpers.js:3 | The coupon codes are exactly BLACKFRIDAY, FREESHIP and HOHOHO, in that order. They are distinct, non-empty and upper-case. |

## Left out

- Helpers.FormatPrice: takes the price as a whole number of cents, not a JavaScript number. The binary floating-point rounding that `toFixed(2)` applies to a fractional price is not modelled, so neither is the behaviour at half-cent boundaries such as 999.995.
- Decimal.Fixed: writes every amount in positional notation. `toFixed` switches to exponential notation from 1e21 on; those amounts are not modelled.
- `"-0.00"`: `toFixed(2)` writes this for a negative price that rounds to zero cents. A whole number of cents cannot express that price, so the model never produces it.
- NaN and Infinity are not modelled: `toFixed` writes "NaN" and "Infinity", which are not numbers of cents.
- `addTax` and `discountPrice` (example-code/helpers.js:9-15) are left out. They are single floating-point multiplications with no structure to state beyond the arithmetic itself.
- `statement` (example-code/helpers.js:17-19) is left out because it only writes to the console.
- The tax-rate constant (example-code/helpers.js:1) is left out because only `addTax` uses it.
- The rest of example-code/app.js is left out. It is DOM event wiring, an HTTP request and logging through third-party libraries. Only its `formatPrice(5000)` call appears, as `Helpers.FormatPriceDemo`.
- example-code/webpack.config.js is left out because it is build configuration.
