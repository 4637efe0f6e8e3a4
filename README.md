# Corrade string views and JSON tokens, modelled in Dafny

This project models two parts of the Corrade C++ utility library.

**Byte string views** (`Containers::StringView`, implemented in
`StringView.cpp`). The model covers:

- the scalar search routines `Implementation::stringFindString`,
  `stringFindLastString`, `stringFindCharacter` (the scalar `memchr` form),
  `stringFindLastCharacter`, `stringFindAny`, `stringFindLastAny`,
  `stringFindNotAny` and `stringFindLastNotAny`;
- the scalar character counter;
- `split(char)`, `split(StringView)`, `splitWithoutEmptyParts(char)` and
  `splitOnAnyWithoutEmptyParts()`;
- `partition()` and `partitionLast()` for both a byte and a string separator;
- `join()` and `joinWithoutEmptyParts()`;
- `hasPrefix()`, `hasSuffix()`, `exceptPrefix()` and `exceptSuffix()`;
- the six comparison operators;
- `operator+` (concatenation) and `operator*` (repetition).

How views are represented:

- A view is a `seq<Byte>` of unsigned bytes, because `memcmp` and `memchr`
  compare bytes as `unsigned char`.
- A returned pointer is an offset into that sequence. A null pointer is
  `None`.
- A returned sub-view is a `Slice(begin, end)` of offsets. This keeps where
  the sub-view points, for example the empty view at the end of
  `partition()`'s "not found" result.

How the looping routines are modelled:

- Every routine that loops in the source is a `method` with the same loop.
- Each method is proved equal to a recursive specification function.
- The properties are then proved about those functions: first or last
  match, parts that join back to the view, counts, closed-form sizes.
- The routines that build a new `String` write into a fresh `array<Byte>`
  through an advancing offset, as the source does with `memcpy`.

**JSON tokens** (`Utility::JsonToken` and its iteration helpers, declared
in `Json.h`). The model covers:

- the 64-bit token word: type, parsed type, three string flags and a 55-bit
  size;
- the union that holds either the child count or the parsed value;
- the inline accessors `type()`, `isParsed()`, `parsedType()`,
  `firstChild()` and `next()`;
- the asserting `as*()` value accessors. `asNull()` and `asDouble()` appear
  as functions whose preconditions are the source's assertions;
- the `Json::Option` flag values;
- `JsonObjectItem::value()`, `JsonIterator` (`==`, `!=`, `++`, `*`) and
  `JsonView::begin()`/`end()`.

How the token array is represented:

- A token array is a `seq<Token>` and a token pointer is its index.
- The predicates `Tree`, `Forest` and `Document` state the depth-first
  layout that the header documents:
  - an object's children are keys and an array's children are values;
  - a key has exactly one value, stored right after it;
  - other values have no children.
- The lemmas prove three things under that layout:
  - `next()` and `firstChild()` stay inside the parent's range;
  - a key's value is a value tree;
  - iterating a view from `begin()` to `end()` visits each immediate child
    exactly once, in order, with consecutive indices.

`JsonIterator` is a class whose `Increment` updates its `index` and `token`
fields in place, as `operator++` does.

Files:

- `optional.dfy`: the `Option` type.
- `string_search.dfy`: the search routines and the counter.
- `string_view.dfy`: prefix and suffix tests, partitioning, comparisons.
- `string_join.dfy`: `join`, `joinWithoutEmptyParts`, `+` and `*`.
- `string_split.dfy`: the four split routines.
- `json_token.dfy`: the token word, the union and the accessors.
- `json_tree.dfy`: the depth-first layout and navigation.
- `json_iteration.dfy`: items, the iterator and the view.

## Model

| member | source | states |
|---|---|---|
| StringSearch.FindString | src/Corrade/Containers/StringView.cpp:119-139 | The loop returns `FirstMatch`: the lowest offset where the substring occurs. It returns offset 0 when both are empty, and none when the substring is longer or never occurs. |
| StringSearch.FirstMatchIsFirst | src/Corrade/Containers/StringView.cpp:119-139 | The found offset holds an occurrence and no earlier offset does. Nothing is found exactly when there is no occurrence anywhere. |
| StringSearch.FirstMatchFromIsFirst | src/Corrade/Containers/StringView.cpp:119-139 | A search starting at `i` finds an occurrence with none between `i` and it. When it finds nothing, none exists at or after `i`. |
| StringSearch.FirstMatchFromSuffix | src/Corrade/Containers/StringView.cpp:144-162 | Searching the rest of the view from `oldpos` finds the same occurrence as searching the whole view from `oldpos`, shifted by `oldpos`. |
| StringSearch.FindLastString | src/Corrade/Containers/StringView.cpp:167-187 | The backward loop returns `LastMatch`: the highest offset where the substring occurs. The empty and too-long rules are the same. |
| StringSearch.LastMatch | src/Corrade/Containers/StringView.cpp:167-187 | A found offset holds an occurrence and no later offset does. Nothing is found exactly when there is no occurrence. |
| StringSearch.FindCharacter | src/Corrade/Containers/StringView.cpp:710-716 | `memchr` finds the first offset holding the byte, or nothing exactly when the byte does not occur. |
| StringSearch.FindLastCharacter | src/Corrade/Containers/StringView.cpp:729-737 | The backward scan returns `LastCharacter`. |
| StringSearch.LastCharacter | src/Corrade/Containers/StringView.cpp:729-737 | The last offset holding the byte, with no later one holding it. Nothing is found exactly when the byte is absent. |
| StringSearch.FirstOf | src/Corrade/Containers/StringView.cpp:760-779 | The first offset whose byte is in the set (or, for the "not any" variant, is not in it). No earlier byte qualifies. Nothing is found exactly when no byte qualifies. |
| StringSearch.FirstOfFromIsFirst | src/Corrade/Containers/StringView.cpp:760-779 | No byte between the start and the found offset (or the end of the view) qualifies. |
| StringSearch.FirstOfFromSuffix | src/Corrade/Containers/StringView.cpp:1111-1130 | Searching the rest of the view from `oldpos` finds the same byte as searching the whole view from `oldpos`. |
| StringSearch.FindAny | src/Corrade/Containers/StringView.cpp:760-764 | The loop returns the first byte that is one of the characters. |
| StringSearch.FindNotAny | src/Corrade/Containers/StringView.cpp:775-779 | The loop returns the first byte that is none of the characters. |
| StringSearch.LastOf | src/Corrade/Containers/StringView.cpp:769-785 | The last offset whose byte is (or is not) in the set, with no later byte qualifying. Nothing is found exactly when no byte qualifies. |
| StringSearch.FindLastAny | src/Corrade/Containers/StringView.cpp:769-773 | The backward loop returns the last byte that is one of the characters. |
| StringSearch.FindLastNotAny | src/Corrade/Containers/StringView.cpp:781-785 | The backward loop returns the last byte that is none of the characters. |
| StringSearch.CountCharacter | src/Corrade/Containers/StringView.cpp:1088-1095 | The counted number is exactly the multiplicity of the byte in the view. |
| StringSearch.CountIsMultiplicity | src/Corrade/Containers/StringView.cpp:1088-1095 | The specification count equals the byte's multiplicity in the multiset of bytes. |
| StringSearch.CountAppend | src/Corrade/Containers/StringView.cpp:1088-1095 | Counting distributes over concatenation. |
| StringSplit.Split | src/Corrade/Containers/StringView.cpp:81-95 | The loop over `memchr` produces `SplitChar`. |
| StringSplit.SplitCharProperties | src/Corrade/Containers/StringView.cpp:81-95 | The parts are slices of the view and no part holds the delimiter. Joining the parts with the delimiter gives back the view. An empty view gives no parts; otherwise there is one more part than delimiters. |
| StringSplit.SplitCharFromJoins | src/Corrade/Containers/StringView.cpp:81-95 | The parts from `oldpos` join back, with the delimiter, to the rest of the view. |
| StringSplit.SplitCharFromCount | src/Corrade/Containers/StringView.cpp:81-95 | There is one more part from `oldpos` than delimiters in the rest of the view. |
| StringSplit.SplitCharFromAvoids | src/Corrade/Containers/StringView.cpp:81-95 | No part from `oldpos` holds the delimiter. |
| StringSplit.SplitStep | src/Corrade/Containers/StringView.cpp:86-89 | One loop turn appends the part up to the next delimiter and advances past it. Without a further delimiter, the remaining suffix is the last part. |
| StringSplit.SplitOnString | src/Corrade/Containers/StringView.cpp:144-162 | For a non-empty delimiter, the loop over `stringFindString` produces `SplitString`. |
| StringSplit.SplitStringProperties | src/Corrade/Containers/StringView.cpp:144-162 | The parts are slices, and no part contains the delimiter string. They join back to the view with the delimiter. An empty view gives no parts. The first part begins at 0. Every part but the last ends at the first delimiter found from its start, and the next part begins right after that delimiter. The last part runs to the end, and no delimiter is found from its start. |
| StringSplit.SplitStringFromJoins | src/Corrade/Containers/StringView.cpp:144-162 | The parts from `oldpos` join back to the rest of the view. |
| StringSplit.SplitStringFromFree | src/Corrade/Containers/StringView.cpp:144-162 | No part from `oldpos` contains the delimiter string. |
| StringSplit.SplitWithoutEmptyParts | src/Corrade/Containers/StringView.cpp:97-114 | The loop produces `SplitCharWithoutEmptyParts`. |
| StringSplit.SplitCharWithoutEmptyPartsIsFiltered | src/Corrade/Containers/StringView.cpp:97-114 | The parts are those of `split(char)` with the empty ones removed, in order. None is empty. Each part ends before the next begins. Each starts at 0 or right after a delimiter, and ends at a delimiter or at the end. |
| StringSplit.SplitNonEmptyFromFilters | src/Corrade/Containers/StringView.cpp:97-114 | From any `oldpos`, the non-empty split equals the plain split without its empty parts. |
| StringSplit.SplitOnAny | src/Corrade/Containers/StringView.cpp:1111-1130 | The loop over `stringFindAny` produces `SplitOnAnyWithoutEmptyParts`. |
| StringSplit.SplitOnAnyProperties | src/Corrade/Containers/StringView.cpp:1111-1130 | The parts are slices of the view. Every part is non-empty and holds none of the delimiters. Concatenating the parts gives the view with its delimiter bytes removed. Each part ends before the next begins. Each starts at 0 or right after a delimiter byte, and ends at a delimiter byte or at the end. So the parts are exactly the maximal runs without delimiters, in order. |
| StringSplit.SplitNonEmptyFromKeepsTheRest | src/Corrade/Containers/StringView.cpp:1111-1130 | From any `oldpos`, the parts concatenate to the rest of the view without its delimiter bytes. |
| StringSplit.SplitNonEmptyFromAvoids | src/Corrade/Containers/StringView.cpp:1111-1130 | From any `oldpos`, every part is non-empty and delimiter-free. |
| StringView.Partition | src/Corrade/Containers/StringView.cpp:1188-1201 | The three views concatenate to the input. With an occurrence, the three views lie end to end over the whole input. The middle view is the separator at its first occurrence, and no occurrence starts before it. Without one, the result is (whole, end, end). |
| StringView.PartitionLast | src/Corrade/Containers/StringView.cpp:1216-1229 | The three views concatenate to the input. With an occurrence, the three views lie end to end over the whole input. The middle view is the separator at its last occurrence, and no occurrence starts after it. Without one, the result is (end, end, whole). |
| StringView.PartitionChar | src/Corrade/Containers/StringView.cpp:1176-1186 | The views concatenate to the input. With an occurrence, they lie end to end over the whole input. The middle view is the separator byte, which does not occur before it. Without an occurrence, the result is (whole, end, end). |
| StringView.PartitionLastChar | src/Corrade/Containers/StringView.cpp:1203-1214 | The views concatenate to the input. With an occurrence, they lie end to end over the whole input. The middle view is the separator byte, which does not occur after it. Without an occurrence, the result is (end, end, whole). |
| StringView.PartitionCharIsPartition | src/Corrade/Containers/StringView.cpp:1176-1201 | Partitioning at a byte is partitioning at the one-byte string. |
| StringView.PartitionLastCharIsPartitionLast | src/Corrade/Containers/StringView.cpp:1203-1229 | Partitioning last at a byte is partitioning last at the one-byte string. |
| StringView.HasPrefix | src/Corrade/Containers/StringView.cpp:1320-1325 | True exactly when the prefix fits and the view's first bytes are the prefix. |
| StringView.HasPrefixChar | src/Corrade/Containers/StringView.cpp:1327-1330 | The same as `hasPrefix()` of the one-byte string. |
| StringView.HasSuffix | src/Corrade/Containers/StringView.cpp:1332-1338 | True exactly when the suffix fits and the view's last bytes are the suffix. |
| StringView.HasSuffixChar | src/Corrade/Containers/StringView.cpp:1340-1343 | The same as `hasSuffix()` of the one-byte string. |
| StringView.ExceptPrefix | src/Corrade/Containers/StringView.cpp:1345-1352 | Requires the prefix to be present, as the source asserts. The prefix followed by the result is the view. |
| StringView.ExceptSuffix | src/Corrade/Containers/StringView.cpp:1354-1361 | Requires the suffix to be present. The result followed by the suffix is the view. |
| StringView.Equal | src/Corrade/Containers/StringView.cpp:1407-1412 | True exactly when the two byte strings are equal. |
| StringView.NotEqual | src/Corrade/Containers/StringView.cpp:1414-1419 | True exactly when they differ. |
| StringView.Less | src/Corrade/Containers/StringView.cpp:1422-1430 | `operator<` is the lexicographic order on unsigned bytes, with a proper prefix less. |
| StringView.MemCmpIsLexicographic | src/Corrade/Containers/StringView.cpp:1422-1430 | A negative `memcmp` over the shorter size, or a zero one with the first view shorter, is exactly the lexicographic order. |
| StringView.LexTrichotomy | src/Corrade/Containers/StringView.cpp:1422-1430 | That order is irreflexive, asymmetric and total. |
| StringView.LexTransitive | src/Corrade/Containers/StringView.cpp:1422-1430 | That order is transitive. |
| StringView.LessEqual | src/Corrade/Containers/StringView.cpp:1432-1440 | `operator<=` is lexicographically less, or equal. |
| StringView.GreaterEqual | src/Corrade/Containers/StringView.cpp:1442-1450 | `operator>=` is not lexicographically less. |
| StringView.Greater | src/Corrade/Containers/StringView.cpp:1452-1460 | `a > b` is `b` lexicographically less than `a`. |
| StringView.MemCmpDecidesEquality | src/Corrade/Containers/StringView.cpp:1432-1440 | `memcmp` over the shorter size is zero and the sizes agree exactly when the views are equal. |
| StringView.MemCmpSwap | src/Corrade/Containers/StringView.cpp:1452-1460 | Swapping the operands of `memcmp` negates its result. |
| StringJoin.Join | src/Corrade/Containers/StringView.cpp:1233-1262 | The filled buffer is the strings with the delimiter between neighbours. Its size is the sum of the sizes plus (n-1) delimiters. |
| StringJoin.JoinedLength | src/Corrade/Containers/StringView.cpp:1233-1262 | The closed-form size of a join. |
| StringJoin.JoinSize | src/Corrade/Containers/StringView.cpp:1234-1237 | The size loop computes the closed form, and 0 with no strings. |
| StringJoin.JoinCopy | src/Corrade/Containers/StringView.cpp:1245-1257 | After copying string `i`, and a delimiter unless it was the last, the buffer prefix is what `join` has written so far. |
| StringJoin.JoinWithoutEmptyParts | src/Corrade/Containers/StringView.cpp:1274-1309 | The buffer is the join of only the non-empty strings, so no delimiter is next to an empty one. Its size is their total size plus (k-1) delimiters for k non-empty strings. |
| StringJoin.JoinNonEmptyTotal | src/Corrade/Containers/StringView.cpp:1276-1282 | The size loop computes the size of the join of the non-empty strings. |
| StringJoin.JoinNonEmptyCopy | src/Corrade/Containers/StringView.cpp:1290-1304 | An empty string writes nothing. Otherwise the string is written, followed by a delimiter unless the buffer is full. |
| StringJoin.NonEmptyTotalSize | src/Corrade/Containers/StringView.cpp:1274-1309 | Dropping empty strings does not change the total size. |
| StringJoin.NonEmptyAppend | src/Corrade/Containers/StringView.cpp:1274-1309 | Dropping empty strings distributes over concatenation. |
| StringJoin.Concat | src/Corrade/Containers/StringView.cpp:1462-1476 | The new string is `a` followed by `b`. |
| StringJoin.Repeat | src/Corrade/Containers/StringView.cpp:1478-1491 | The loop writes `count` copies of the view. |
| StringJoin.RepeatedLength | src/Corrade/Containers/StringView.cpp:1478-1491 | The repetition's size is size times count. |
| StringJoin.RepeatedAt | src/Corrade/Containers/StringView.cpp:1478-1491 | Byte `size*q + r` of the repetition is byte `r` of the view. |
| StringJoin.RepeatedAppend | src/Corrade/Containers/StringView.cpp:1478-1491 | Repeating a+b times is repeating a times, then b times. |
| StringJoin.RepeatCountFirst | src/Corrade/Containers/StringView.cpp:1493-1495 | `count*view` is `view*count`, of size size times count. |
| JsonToken.FieldsPartitionTheWord | src/Corrade/Utility/Json.h:1596-1626 | The type, parsed-type, three flag and size fields are pairwise disjoint and together cover all 64 bits. |
| JsonToken.FieldsCoverTheWord | src/Corrade/Utility/Json.h:1596-1626 | Any word is the union of its six masked fields. |
| JsonToken.TypeBits | src/Corrade/Utility/Json.h:650-765 | Each `Type` value is a non-zero pattern inside the type field and never the all-ones pattern. |
| JsonToken.ParsedTypeBits | src/Corrade/Utility/Json.h:772-917 | Each `ParsedType` value lies inside the parsed-type field. Only `None` is zero. |
| JsonToken.TypeOf | src/Corrade/Utility/Json.h:1866-1876 | `type()` reads back a type exactly when the field holds one of the six patterns, and that type's pattern is the field. |
| JsonToken.ParsedTypeOf | src/Corrade/Utility/Json.h:1890-1901 | `parsedType()` reads back the value whose pattern is the field. |
| JsonToken.IsParsed | src/Corrade/Utility/Json.h:1878-1888 | `isParsed()` holds exactly when `parsedType()` is not `None`. |
| JsonToken.SizeField | src/Corrade/Utility/Json.h:1624-1626 | The size fits the 55 low bits. |
| JsonToken.PackReadsBack | src/Corrade/Utility/Json.h:1596-1626 | After packing a type, a parsed type, three flags and a size, each accessor reads back exactly its own field. |
| JsonToken.ParseStringsImpliesParseStringKeys | src/Corrade/Utility/Json.h:335-351 | `ParseStrings` includes the `ParseStringKeys` bit and none of the other options. `ParseStringKeys` alone is not `ParseStrings`. |
| JsonToken.WriteLow32 | src/Corrade/Utility/Json.h:1692-1711 | Writing a 32-bit union member leaves the union's high four bytes unchanged. |
| JsonToken.AsNull | src/Corrade/Utility/Json.h:1925-1929 | Requires type Null and parsed. The result is the null pointer. |
| JsonToken.AsBool | src/Corrade/Utility/Json.h:1931-1935 | Requires type Bool and parsed. The result is true exactly when the union's first byte, `_parsedBool`, is non-zero. |
| JsonToken.AsDouble | src/Corrade/Utility/Json.h:1937-1941 | Requires parsed type Double. The result is the whole 64-bit union, `_parsedDouble`. |
| JsonToken.AsBoolReadsBack | src/Corrade/Utility/Json.h:1931-1935 | Requires type Bool and parsed. Reads back the stored bool. |
| JsonToken.AsFloat | src/Corrade/Utility/Json.h:1943-1947 | Requires parsed type Float. The result is a 32-bit pattern. |
| JsonToken.AsFloatReadsBack | src/Corrade/Utility/Json.h:1943-1947 | Reads back the stored float bits. |
| JsonToken.AsUnsignedInt | src/Corrade/Utility/Json.h:1949-1953 | Requires UnsignedInt. The result fits 32 unsigned bits. |
| JsonToken.AsUnsignedIntReadsBack | src/Corrade/Utility/Json.h:1949-1953 | Reads back the stored value. |
| JsonToken.AsInt | src/Corrade/Utility/Json.h:1955-1959 | Requires Int. The result fits 32 signed bits. |
| JsonToken.AsIntReadsBack | src/Corrade/Utility/Json.h:1955-1959 | Reads back a stored negative or positive value through two's complement. |
| JsonToken.AsUnsignedLong | src/Corrade/Utility/Json.h:1961-1965 | Requires UnsignedLong. The result fits 64 unsigned bits. |
| JsonToken.AsLong | src/Corrade/Utility/Json.h:1967-1972 | Requires Long. The result fits 64 signed bits. |
| JsonToken.AsLongReadsBack | src/Corrade/Utility/Json.h:1967-1972 | Reads back the stored value through two's complement. |
| JsonToken.AsSize | src/Corrade/Utility/Json.h:1975-1983 | Requires `ParsedType::Size`, which is `UnsignedLong` on 64-bit. Returns the unsigned long member. |
| JsonTree.Next | src/Corrade/Utility/Json.h:1067-1069 | `next()` lies past the token. |
| JsonTree.FirstChild | src/Corrade/Utility/Json.h:1903-1923 | A first child, when there is one, is the token right after. |
| JsonTree.FirstChildExactlyWithChildren | src/Corrade/Utility/Json.h:1031-1048 | `firstChild()` finds a child exactly when there are nested tokens. Null, bool and number tokens never have one. A non-empty object's first child is a string key. |
| JsonTree.KeysAreStrings | src/Corrade/Utility/Json.h:213-220 | A key token is a string. |
| JsonTree.ChildCountHasFirstChild | src/Corrade/Utility/Json.h:993-1007 | `childCount()` of any token, in any layout: a non-zero count means `firstChild()` finds a child. |
| JsonTree.ChildCountOfValuesAndKeys | src/Corrade/Utility/Json.h:996-1008 | Null, bool, number and value-string tokens count 0. A key counts its value and the value's nested tokens. |
| JsonTree.TreeNests | src/Corrade/Utility/Json.h:213-220 | Every token between a token and its `next()` is a tree whose `next()` stays within the outer one. |
| JsonTree.ForestNests | src/Corrade/Utility/Json.h:213-220 | Every token of a sibling range is a tree ending within the range. |
| JsonTree.DocumentTokensNest | src/Corrade/Utility/Json.h:194-220 | In a document, every token is a tree whose `next()` does not run past the end. |
| JsonTree.ForestChildren | src/Corrade/Utility/Json.h:213-220 | The `next()` chain from the start of a sibling range lists its immediate children: trees with the right key flag, each at the previous one's `next()`, the last ending at the range's end. |
| JsonTree.KeyValue | src/Corrade/Utility/Json.h:1740-1742 | A key's first child is the token after it: a non-key tree ending at the key's `next()`. |
| JsonTree.ContainerChildren | src/Corrade/Utility/Json.h:1092-1130 | An object's immediate children are keys and an array's are values, all between the container and its `next()`. |
| JsonIteration.ObjectItemValue | src/Corrade/Utility/Json.h:1740-1742 | `JsonObjectItem::value()` is the token after the key: a value tree with the key's `next()`. |
| JsonIteration.JsonIterator.Equal | src/Corrade/Utility/Json.h:1802-1806 | Compares only the token positions. |
| JsonIteration.JsonIterator.NotEqual | src/Corrade/Utility/Json.h:1808-1812 | The negation of `==`, on token positions only. |
| JsonIteration.JsonIterator.Increment | src/Corrade/Utility/Json.h:1818-1822 | The index goes up by one and the token moves to its `next()`. Nothing else changes. |
| JsonIteration.JsonIterator.ArrayItemAt | src/Corrade/Utility/Json.h:1825-1827 | Dereferencing gives the current index and token. |
| JsonIteration.JsonIterator.ObjectItemAt | src/Corrade/Utility/Json.h:1825-1827 | Dereferencing gives the current key token. The index is dropped. |
| JsonIteration.JsonView.Begin | src/Corrade/Utility/Json.h:1848-1850 | A fresh iterator at the first token, with index 0. |
| JsonIteration.JsonView.End | src/Corrade/Utility/Json.h:1853-1855 | A fresh iterator at the stop token, also with index 0. |
| JsonIteration.ContentsView | src/Corrade/Utility/Json.h:1092-1130 | The view over a container runs from the token after it to its `next()`. It is a sibling range of keys for an object and of values for an array. It is non-empty exactly when `firstChild()` exists. |
| JsonIteration.IndexIsImplicit | src/Corrade/Utility/Json.h:1802-1812 | Two iterators over the same siblings are at the same token exactly when they have passed the same number of items, so comparing tokens suffices. |
| JsonIteration.SiblingsIncrease | src/Corrade/Utility/Json.h:1818-1822 | Each step of the iteration moves strictly forward. |
| JsonIteration.Walk | src/Corrade/Utility/Json.h:1802-1855 | Going from `begin()` with `++` until `== end()` visits exactly the immediate children, each once and in order, with item indices 0, 1, 2, and so on. |

## Left out

- The SIMD variants of `stringFindCharacter` and the character counter (SSE2, AVX2, NEON, WebAssembly) and their runtime CPU dispatch. They rely on intrinsics and alignment tricks, and they define the same result as the scalar forms modelled here.
- The `Debug` output operators for `StringViewFlag` and the `ArrayViewConverter` glue: output and type conversion, with no logic to prove.
- The deprecated `splitWithoutEmptyParts(StringView)` and the whitespace-splitting variants are not modelled separately. The first only forwards to `splitOnAnyWithoutEmptyParts()`, which is modelled.
- View flags (`Global`, `NullTerminated`) and the size bits they share with the size are not modelled. Sizes are unbounded naturals, so `size_t` overflow in `join` and `operator*` is not represented.
- StringSearch.FindCharacter: `memchr` is modelled as a function of the bytes, not as a loop, because the scalar form is a single library call.
- StringSplit.Split: the source grows an `Array` with `arrayAppend` (StringView.cpp:82-91). The model appends each part to a `seq` instead, so the array's growth and reallocation are not represented.
- StringSplit.PartText: a part outside the view reads as empty. This exists for totality; the lemmas show every part is inside the view.
- Json.cpp is not part of this model. The bodies of `childCount()`, `asObject()`, `asArray()`, `children()`, `parent()`, `find()`, `asString()`, the array accessors, the tokenizer and the `parse*()` passes are there. The token layout those produce is stated as the `Tree`/`Forest`/`Document` predicates, from the header's description.
- JsonTree.ChildCount and JsonTree.ChildCountOfValuesAndKeys: in the layout the header describes, a key's count is one more than its value's. That equals the documented constant 1 exactly when the value has no children itself. This follows from the depth-first layout and "count of all nested tokens"; the `childCount()` body itself is not available.
- JsonIteration.ContentsView: `asObject()`/`asArray()` are taken to return the view from the token after the container to its `next()`, as their documentation describes. Their bodies are not available.
- The 32-bit NaN-boxed token layout and the 32-bit branches of the accessors. Only the 64-bit layout is modelled.
- JsonToken.AsDouble and JsonToken.AsFloat: floating-point values are modelled as their bit patterns in the union, with no IEEE interpretation. The narrower union members are modelled as the low bytes of the 64-bit value (a little-endian target).
- JsonToken.AsNull: `nullptr` is modelled as `None`, the model's null pointer. Only its precondition carries further meaning.
- JsonToken.Token: the token's data pointer is an opaque number, and `data()` and string token text are not modelled.
- `JsonToken::asString()` and `JsonObjectItem::key()` read string contents that Json.cpp produces. They are not modelled.
