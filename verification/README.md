# geo-llama in Dafny

A model of the deterministic core of geo-llama. geo-llama is a geoparser: a toponym model lists the place names in a text. A gazetteer (Nominatim or GeoNames) supplies candidate locations for each name. A retrieval-augmented (RAG) model then picks a location and says whether it is one of the candidates.

The language models, the HTTP session and the library parsers are inputs of the model: functions passed as parameters. Everything between them is modelled as pure functions over immutable values:

- the regular-expression tokenizer;
- the repair of broken JSON answers;
- the validation of answers against the text and the candidates;
- prompt formatting and reply slicing;
- the gazetteer's cache, credential checks, URLs and record reshaping;
- the orchestration of one geoparse;
- the serialisation of annotated records.

Modules:

- `PyValues` (values.dfy): Python values as a `Json` datatype, exceptions as `PyError` in a `Result`, truthiness and `v[key]`.
- `PyStrings` (strings.dfy): `str.find`, `split`, `join`, `replace`, `lower` and `capitalize`, with the split/join laws.
- `PyLists` (lists.dfy): `list.insert`, `list.index`, comprehensions with a condition, order-preserving deduplication and subsequences.
- `Numbers` (numbers.dfy): decimal literals, `ast.literal_eval` restricted to numbers, booleans and None, `float()`, and `str(int)`.
- `Lexer` (lexer.dfy): `RAGModel.extract_words`.
- `Prompt` (prompt.dfy): `Model.format_prompt` (a `str.format` with `{}` fields), the prompt builders and the reply slicing of `get_output`.
- `RagModel` (rag_model.dfy): `add_missing_keys`, `get_word`, `fix_json`, `validate_json` and `clean_response` of `RAGModel`.
- `TopoModel` (topo_model.dfy): `fix_json`, `validate_toponyms` and `clean_response` of `TopoModel`.
- `Gazetteer` (gazetteer.dfy): the `Gazetteer` class.
- `Pipeline` (pipeline.dfy): the `GeoLlama` class.
- `Records` (records.dfy): `Toponym.to_dict`, `Article.to_dict` and `Article.__post_init__`.
- `Scenarios` (scenarios.dfy): the inputs and expected outputs of the repository's unit tests, proved of the model.

Where the code and its tests disagree, or the code evidently does not do what its authors meant, the model has both versions; see "## Findings". An `…AsWritten` member models the code as written. The member without the suffix is the corrected one, and the rest of the model uses it.

Behaviours of the code that a reader might not expect, which the model keeps:

- A latitude or longitude that is not a number, `True`, `False` or `None` makes `fix_json` raise, not give a null field (`None` gives a null field and a boolean a boolean one).
- A failing step for one toponym ends the whole geoparse; the other toponyms are not still resolved.
- A missing gazetteer credential is detected at the first query, not at construction.
- A GeoNames body without a `geonames` entry raises rather than degrading to an empty list.
- The toponym list is deduplicated keeping first occurrences. The code's `list(set(...))` has no defined order, and nothing downstream depends on it.
- The toponym model's answer is deduplicated on every path, as the docstrings of `TopoModel.clean_response` and `GeoLlama.get_toponyms` promise. The code deduplicates only on its repair path; see "## Findings". `Pipeline.GetToponyms` uses the corrected `TopoModel.CleanResponse`.

## Model

| member | source | states |
|---|---|---|
| Lexer.ExtractWords | geo_llama/model.py:248-263 | each token is a non-empty run of token characters (word characters, the Latin-1/Latin Extended-A range, `-`, `.`, `'`), cut from the input at match positions that do not overlap and come in source order |
| Lexer.TokensHaveNoPunctuation | geo_llama/model.py:248-263 | no token contains a brace, a double quote, a colon, a comma or a space |
| Lexer.ExtractRendered | geo_llama/model.py:248-263 | well-formed tokens laid out between any separators (quotes, commas, braces or nothing) are read back exactly; the tokenizer undoes any such rendering |
| Lexer.MatchToken | geo_llama/model.py:250-260 | a word token or a negative number that follows a separator, and is not itself extended by the next character, is matched whole by the first or second alternative |
| Lexer.ReadRender | geo_llama/model.py:262 | re.findall, applied to a rendering, reports exactly the spans of its tokens |
| Scenarios.ExtractWordsStripsCharacters | tests/test_rag_model.py:154-163 | `{"name":"Paris"}` gives the words `name` and `Paris` |
| Scenarios.ExtractWordsKeepsCompounds | tests/test_rag_model.py:165-240 | `Champs-Elysees`, `d'Huez`, `Élysées`, `129a`, `2.34` and `-2.34` each come out as one word |
| PyLists.Insert | geo_llama/model.py:229-230 | `list.insert` puts the element at the index (the end, for an index past it); the elements before it keep their positions and those after it move up by one |
| RagModel.InsertPairShape | geo_llama/model.py:229-230 | the two inserts put `[key, 'False']` at the index, with everything before it kept before and everything after it kept after |
| RagModel.AddMissingKeys | geo_llama/model.py:225-234 | every expected key is present afterwards; a list that already has them all comes back unchanged; otherwise a `'False'` was added |
| RagModel.FillMembers | geo_llama/model.py:225-234 | the loop keeps every word, makes every key present, and changes nothing when no key is missing |
| RagModel.AddMissingKeysSpec | geo_llama/model.py:214-234 | the input stays a subsequence of the output (relative order kept); the output is longer by exactly two per missing key; each missing key is followed directly by `'False'` |
| RagModel.FillLength | geo_llama/model.py:225-234 | with distinct keys, the list grows by two for each key absent from it |
| RagModel.FillInsertsPairs | geo_llama/model.py:227-230 | each missing key appears as the adjacent pair `[key, 'False']` |
| RagModel.FillKeepsPair | geo_llama/model.py:225-233 | a pair lying before the running index is never moved or split by later insertions |
| RagModel.FillKeepsSubsequence | geo_llama/model.py:225-234 | insertions only add: whatever was a subsequence of the input is one of the output |
| RagModel.Missing | geo_llama/model.py:226-227 | the missing keys are exactly the expected keys absent from the words |
| RagModel.MissingInOrder | geo_llama/model.py:226-227 | the missing keys are a subsequence of the declared keys, so they keep the declared order, and they are distinct when the declared keys are |
| RagModel.AddMissingKeysRestoresLayout | geo_llama/model.py:214-234 | on a record laid out `[key, value, ...]` in declared order with some pairs left out, each left-out pair is put back with `'False'` exactly where it belongs |
| RagModel.AddMissingKeysAsWrittenMisplaces | geo_llama/model.py:225-234 | as written, with latitude and longitude both missing, longitude lands after RAG_estimated; corrected, before it |
| Scenarios.RepairWordsAsWrittenRaises | geo_llama/model.py:191-234 | as written, fix_json of the words `name Paris RAG_estimated true` raises: the latitude runs over `False RAG_estimated true`, which literal_eval rejects |
| Scenarios.MisplacedLatitudeRaises | geo_llama/model.py:197-212 | with the longitude pair after the flag, reading the record fails on the latitude for any name and flag |
| Scenarios.RepairNameAndFlag | geo_llama/model.py:191-234 | corrected, an answer with only a name and a flag is repaired to that name with latitude, longitude and RAG_estimated all False |
| Scenarios.AddMissingKeysOneMissing | tests/test_rag_model.py:134-142 | one missing key (latitude) is inserted with `'False'` between name's value and longitude, for any non-key values |
| Scenarios.AddMissingKeysMultipleMissing | tests/test_rag_model.py:144-152 | latitude and RAG_estimated both missing: both pairs go in where they belong |
| Scenarios.AddMissingKeysTestWords | tests/test_rag_model.py:134-152 | the tests' own words, `Paris`, `2.34` and `True`, give the tests' expected lists |
| PyLists.IndexOf | geo_llama/model.py:284-286 | `list.index` is the position of the first occurrence |
| RagModel.GetWord | geo_llama/model.py:279-289 | get_word raises ValueError exactly when a given marker is absent from the words |
| RagModel.GetWordBetween | geo_llama/model.py:279-289 | between two present markers, the result is the space-join of exactly the words strictly between their first occurrences |
| RagModel.GetWordFromStart | geo_llama/model.py:280-288 | with no start marker, the words from the beginning up to the stop marker |
| RagModel.GetWordToEnd | geo_llama/model.py:281-288 | with no stop marker, the words from after the start marker to the end |
| RagModel.GetWordReversed | geo_llama/model.py:284-288 | a stop marker that comes no later than the start marker gives the empty string |
| RagModel.GetWordSplits | geo_llama/model.py:288 | the space-join splits back into the words when no word holds a space |
| Numbers.LiteralEval | geo_llama/model.py:210-212 | `True`, `False` and `None` give the boolean or null; any other text gives a number exactly when it spells a decimal without a superfluous leading zero, and that number is the decimal's value; it is a malformed literal exactly when none of these holds |
| Numbers.LiteralEvalIntToString | geo_llama/model.py:210-212 | literal_eval reads the decimal rendering of any integer back as that integer |
| Numbers.IntToStringParses | geo_llama/data.py:79 | `str(n)` of an integer reads back as n |
| RagModel.CapitalizedBool | geo_llama/model.py:207-212 | a word that lower-cases to true or false, once capitalised, evaluates to the matching boolean |
| RagModel.ReadRecord | geo_llama/model.py:197-212 | reading the record gives the four keys with a boolean RAG_estimated, or a malformed literal, or IndexError only when no word spells true or false |
| RagModel.ReadRecordFields | geo_llama/model.py:197-212 | the name is the words between `name` and `latitude`, each coordinate is the literal of the words between its marker and the next, and RAG_estimated is whether the first word that spells true or false spells true |
| RagModel.ReadRecordOf | geo_llama/model.py:197-212 | given the three word runs and the first boolean word, the record read is exactly the one they spell |
| Scenarios.MissingLatitudeOverridesFlag | geo_llama/model.py:191-212 | with latitude missing, the inserted `'False'` is the first boolean word, so words like `name Paris longitude 2.34 RAG_estimated true` read latitude False and RAG_estimated False, whatever flag the reply gave |
| RagModel.RepairWords | geo_llama/model.py:191-212 | fix_json fails only on a malformed latitude or longitude, or for want of a boolean when every key was already there and no word is true or false; otherwise it gives the four keys with a boolean flag |
| RagModel.FixJson | geo_llama/model.py:181-212 | fix_json on any text gives a four-key record or a literal/index error |
| RagModel.RepairRecordWords | geo_llama/model.py:191-212 | the words of a complete answer give back the record they spell: the name is the words between `name` and `latitude`, the coordinates are their literals and the flag is the first boolean word |
| RagModel.FixJsonReadsRecord | geo_llama/model.py:181-212 | however the separators are mangled (missing comma, quotes or brace), an answer whose words the tokenizer reads back comes out as the record it spells |
| RagModel.AnyClose | geo_llama/model.py:305-310 | over all matches: defined exactly when every match is readable, and true exactly when some match lies within the tolerance |
| RagModel.ValidateJson | geo_llama/model.py:291-312 | RAG_estimated is set to whether some match is within 0.001 on both axes (false for no matches); every other key keeps its value; the error cases are those of reading coordinates |
| RagModel.ValidatedWithin | geo_llama/model.py:311-312 | the validated record is close to a match exactly when the original was |
| RagModel.NormalizeRemovesQuotes | geo_llama/model.py:169 | no single quote survives the spelling fixes |
| RagModel.CleanResponse | geo_llama/model.py:159-179 | with no validation data the result is the strict parse of the normalised reply, or fix_json of it when strict parsing fails; with matches a parse error passes through, and RAG_estimated is decided by the tolerance check (an empty list included, false for none) |
| RagModel.CleanResponseKeepsParse | geo_llama/model.py:170-179 | with matches, cleaning succeeds exactly when the parsed reply is a dict against which every match can be read, and the record keeps every key of the parse other than RAG_estimated |
| RagModel.CleanResponseRepairsRecord | geo_llama/model.py:159-212 | a rendered record that strict parsing rejects is repaired into the record it spells and then validated against the matches |
| Scenarios.ValidateJsonEmptyList | tests/test_rag_model.py:278-284 | no matches: RAG_estimated is false and the name is kept |
| Scenarios.ValidateJsonLocationInMatches | tests/test_rag_model.py:286-293 | a match 0.0001 degrees away counts |
| Scenarios.ValidateJsonLocationNotInMatches | tests/test_rag_model.py:295-302 | a match 0.01 degrees away does not |
| TopoModel.ListPart | geo_llama/model.py:372 | IndexError exactly when there is no `["`; otherwise the slice of the answer that starts right after the first `["` and is the first piece when the rest is split on `["` |
| TopoModel.TrailingRun | geo_llama/model.py:374-376 | counts the trailing non-alphanumerics, and the character before them is alphanumeric |
| TopoModel.StripAsWritten | geo_llama/model.py:374-377 | as written, an empty list text leaves the loop variable unbound (UnboundLocalError) |
| TopoModel.Strip | geo_llama/model.py:373-377 | the intended strip: a prefix ending in a letter or digit, with only non-alphanumerics cut off |
| TopoModel.Items | geo_llama/model.py:379-382 | the items are distinct and non-empty, and are exactly the non-empty pieces of the split on `", "` |
| TopoModel.RepairList | geo_llama/model.py:371-382 | the recovered toponyms are distinct, non-empty pieces of the answer itself; IndexError exactly when there is no `["` |
| TopoModel.RepairListReadsList | geo_llama/model.py:371-382 | toponyms written as a list behind any prefix, ending in any run of non-alphanumerics (a closing `"]}` or nothing), all come back once each, in order of first occurrence; as written, none come back when the text ends right after a letter or digit |
| TopoModel.FixJsonAsWritten | geo_llama/model.py:362-382 | as written, fix_json gives a dict whose only key is `toponyms`; it raises IndexError when there is no `["` and UnboundLocalError when nothing follows the first `["` |
| TopoModel.FallbackToponymsAsWritten | geo_llama/model.py:352-358 | when strict parsing fails, the toponym list is the list the as-written fix_json recovers |
| TopoModel.ValidateToponyms | geo_llama/model.py:384-397 | the result is the order-preserving subsequence of toponyms that occur in the text, each kept as many times as it is listed and the others not at all |
| TopoModel.CleanResponseAsWritten | geo_llama/model.py:352-359 | as written: the toponyms are validate_toponyms of the `toponyms` list of the strictly parsed or as-written repaired answer, so each occurs in the text; when strict parsing fails they are validate_toponyms of the as-written repaired list, with no repeats, and the call fails exactly when there is no `["` (IndexError) or nothing follows it (UnboundLocalError) |
| TopoModel.CleanResponseStrictList | geo_llama/model.py:352-359 | an answer that parses strictly to a `toponyms` list gives that list filtered by the text, repeats included |
| TopoModel.CleanResponse | geo_llama/model.py:343-359 | corrected: the toponyms of the answer that occur in the text, each once; on a strict parse it succeeds exactly when the code does, with the code's toponyms deduplicated; when strict parsing fails it fails exactly when there is no `["` and otherwise gives the corrected repaired list filtered by the text |
| Scenarios.TopoStrictKeepsRepeats | geo_llama/model.py:352-359 | as written, a strictly parsed answer listing the same toponym twice keeps both |
| Scenarios.TopoDedupsRepeats | geo_llama/model.py:343-345 | corrected, the same answer gives the toponym once |
| Scenarios.TopoFixJsonTruncated | tests/test_toponym_model.py:69-79 | `["toponym1", "toponym2", "top]}` gives toponym1, toponym2 and top |
| Scenarios.TopoFixJsonRepeated | tests/test_toponym_model.py:81-91 | a repeated toponym comes back once |
| Scenarios.TopoFixJsonAsWrittenDropsAll | geo_llama/model.py:374-377 | as written, an answer cut short right after a letter loses every toponym; corrected, it keeps all three |
| Scenarios.TopoTruncatedAnswerDropsAll | geo_llama/model.py:352-359 | as written, a whole answer cut short right after a letter, such as `{"toponyms": ["Paris", "Lon`, gives no toponyms; corrected, it gives the listed toponyms the text mentions, each once |
| Scenarios.TopoEmptyListRaises | geo_llama/model.py:372-377 | as written, an answer that stops right after its `["` raises UnboundLocalError; corrected, it gives no toponyms |
| Scenarios.ValidateToponymsDropsAbsent | tests/test_toponym_model.py:93-99 | of London, Rio de Janeiro, Tokyo and Paris, the text without Paris keeps the first three |
| Prompt.Format | geo_llama/model.py:96 | str.format fails only with IndexError, ValueError or an unsupported field |
| Prompt.FormatEscape | geo_llama/model.py:96 | formatting undoes brace escaping, whatever the arguments |
| Prompt.FormatSlots | geo_llama/model.py:96 | a template of brace-free pieces around `{}` fields formats to the pieces with the arguments in order, or IndexError when there are too few |
| Prompt.FormatPromptFills | geo_llama/model.py:88-97 | a three-field template yields a one-prompt batch with instruction, input and response in their places |
| Prompt.FormatPromptTooManyFields | geo_llama/model.py:96 | a template with more than three fields raises IndexError |
| Prompt.GeoparsePrompt | geo_llama/model.py:142-157 | without an input template (the toponym model's case) AttributeError; otherwise a one-prompt batch |
| Prompt.GeoparsePromptFills | geo_llama/model.py:155-157 | the prompt holds the text, the toponym and the printed matches, in that order, inside the input part |
| Prompt.GetResponse | geo_llama/model.py:114-117 | fails only with IndexError or ValueError, and with IndexError exactly when the batch is empty or the first reply lacks the response token |
| Prompt.GetResponseSpec | geo_llama/model.py:116-117 | the response directly follows the first response token, contains neither marker, and ends at the next marker or at the end of the reply |
| Prompt.GetResponseOf | geo_llama/model.py:116-117 | a reply laid out as echo, token, body, end marker and anything after yields exactly the body |
| Prompt.GetResponseExample | tests/test_model.py:71-74 | the stand-in reply `input ### Response: default output <\out>` yields ` default output ` |
| Gazetteer.New | geo_llama/gazetteer.py:28-39 | the base URL is set exactly for `nominatim` and `geonames`, the username exactly for `geonames`; the cache starts empty |
| Gazetteer.NominatimUrlParameters | geo_llama/gazetteer.py:81-83 | the Nominatim URL's query string is exactly the encoded query, `format=json` and `accept-language=en` |
| Gazetteer.GeonamesUrlParameters | geo_llama/gazetteer.py:107-111 | the GeoNames URL's query string is exactly the encoded query, the username, `orderby=relevance` and `maxRows=20` |
| Gazetteer.ReshapeAll | geo_llama/gazetteer.py:130-142 | one reshaped record per input record, in order; defined exactly when every record is a dict with a printable address |
| Gazetteer.FormatGeonamesResponse | geo_llama/gazetteer.py:126-142 | length and order kept, `lng` renamed `lon`, missing fields default to `''`, and the keys are exactly name, lat, lon and display_name |
| Gazetteer.DisplayNameAsWrittenParts | geo_llama/gazetteer.py:135 | as written, a display name whose parts hold no comma splits back into all three parts, empty ones included |
| Gazetteer.DisplayNameParts | geo_llama/gazetteer.py:132-135 | corrected, a display name whose parts hold no comma splits back into exactly the non-empty parts |
| Gazetteer.FormatGeonamesExample | tests/test_gazetteer.py:145-175 | the test's two records give the expected records, `name_2, country_2` included |
| Gazetteer.FormatGeonamesAsWrittenExample | geo_llama/gazetteer.py:135 | as written, the record without a region gets `name_2, , country_2` |
| Gazetteer.GeonamesQuery | geo_llama/gazetteer.py:98-124 | corrected: with a base URL and a username the GeoNames URL for the encoded query is requested, and without either nothing is requested and AttributeError is raised; a failed request answers the empty list and leaves the cache alone; a body without `geonames` raises its KeyError or TypeError; otherwise the answer is the format_geonames_response of the `geonames` entry, cached under the query, or that function's error |
| Gazetteer.GeonamesQueryReshapes | geo_llama/gazetteer.py:117-120 | a body listing GeoNames records answers one record per GeoNames record, in order, with name, lat, lng as lon and a display name, cached under the query |
| Gazetteer.GeonamesFailureAsWritten | geo_llama/gazetteer.py:122-124 | as written, a failed GeoNames request answers a one-entry dict, not an empty list |
| Gazetteer.Query | geo_llama/gazetteer.py:41-96 | at most one request; only the cache entry for the query can change; a hit answers the cached entry; on a miss exactly one request is made for Nominatim with a user agent and a base URL, and for GeoNames with a base URL and a username, and none otherwise; the Nominatim request goes to the Nominatim URL and answers the fetched body, cached under the query, or the empty list on a request error; a GeoNames request answers exactly what the corrected _geonames_query answers; an unknown source answers None |
| Gazetteer.QueryCacheHit | geo_llama/gazetteer.py:57-59 | a truthy cache entry is answered as is, with no request, no credential check and no change |
| Gazetteer.QueryNeedsCredentials | geo_llama/gazetteer.py:61-68 | on a miss, Nominatim without a user agent or GeoNames without a username raises ValueError before any request |
| Gazetteer.QueryThenCached | geo_llama/gazetteer.py:57-69 | asking the same query twice makes at most one request when the first answer is truthy |
| Gazetteer.CacheKeyAsWritten | geo_llama/gazetteer.py:91 | as written, asking the same query again repeats the Nominatim request |
| Gazetteer.GeonamesBranchAsWritten | geo_llama/gazetteer.py:69 | as written, a GeoNames gazetteer raises TypeError on every miss; corrected, it requests the GeoNames URL |
| Gazetteer.DefaultSourceAsWritten | geo_llama/gazetteer.py:28-36 | as written, the default gazetteer has no base URL and answers None without a request; with `nominatim` it requests the Nominatim URL |
| Gazetteer.NewDefault | geo_llama/gazetteer.py:28-33 | the documented default is a Nominatim gazetteer with an empty cache |
| Pipeline.GetToponyms | geo_llama/main.py:71-83 | every toponym returned occurs in the text and none is repeated, whatever the model answered |
| Pipeline.UserAgent | geo_llama/main.py:86 | the user agent is never empty, so a Nominatim lookup never fails for want of one |
| Pipeline.Remap | geo_llama/main.py:92-95 | a record is remapped exactly when it is a dict with name, lat, lon and display_name; the result has exactly name, lat, lon and address, with address the display name |
| Pipeline.RemapItems | geo_llama/main.py:90-96 | one remapped record per raw record, in order |
| Pipeline.RemapTestRecords | tests/test_geollama.py:35-49 | the test gazetteer's two records come back with their display names under `address` |
| Pipeline.GetMatches | geo_llama/main.py:85-96 | the request and the gazetteer state are the gazetteer query's; its error passes through; a list answer gives one match per record, in order, each with the record's name, lat and lon and its display name as address, and fails exactly when some record lacks one of them; every match has exactly these four keys; an uncached Nominatim lookup requests the Nominatim URL for the toponym |
| Pipeline.GetLocation | geo_llama/main.py:98-112 | a failed prompt or generation fails the call; on success RAG_estimated is whether some candidate lies within the tolerance of the answer |
| Pipeline.GetLocationKeepsReply | geo_llama/main.py:98-112 | on success the record is the parsed (or repaired) reply of the RAG model, with every key other than RAG_estimated kept with its value |
| Pipeline.Steps | geo_llama/main.py:63-68 | two steps per toponym, each a lookup or a RAG call for one of the toponyms |
| Pipeline.StepsAt | geo_llama/main.py:63-68 | the k-th toponym is looked up at step 2k and located at step 2k + 1 |
| Pipeline.LocateOne | geo_llama/main.py:64-68 | one iteration: the gazetteer state and requests are the lookup's; a failed lookup raises its error after one step; otherwise the RAG call on the lookup's matches follows, and the entry is its location, or its error |
| Pipeline.CollectSpec | geo_llama/main.py:63-69 | a loop that appends each outcome and stops at the first exception succeeds exactly when every outcome does, with the values in order; otherwise it raises the first failure |
| Pipeline.LocateAll | geo_llama/main.py:63-69 | on success, one located entry per toponym and exactly the lookup/RAG steps in order; on failure, a prefix of them; at most one request per toponym |
| Pipeline.LocateAllCollects | geo_llama/main.py:63-69 | the loop's result is its per-toponym outcomes collected up to the first failure, each lookup made on the gazetteer the earlier lookups left; on success the gazetteer is the one all lookups leave |
| Pipeline.LocateAllLocates | geo_llama/main.py:63-69 | the loop succeeds exactly when every toponym's lookup and RAG call do, and then entry j is the j-th toponym's location; otherwise it raises the first failure's error |
| Pipeline.LocationsAt | geo_llama/main.py:63-68 | the j-th outcome is the lookup and RAG call for the j-th toponym, on the gazetteer the first j lookups left |
| Pipeline.Geoparse | geo_llama/main.py:45-69 | a non-string raises TypeError before any model call; otherwise extraction comes first, then one lookup and one RAG call per toponym in order, one output entry per toponym; no toponyms means an empty output and no gazetteer call |
| Pipeline.GeoparseLocates | geo_llama/main.py:60-69 | on extracted toponyms, geoparse gives one entry per toponym, entry j the location of toponym j against its own lookup's matches, and succeeds exactly when every lookup and RAG call does; otherwise it raises the first failure's error |
| Pipeline.GeoparseStepsInText | geo_llama/main.py:60-69 | every lookup and RAG call is for a toponym that occurs in the text |
| Records.ToponymToDict | geo_llama/data.py:33-44 | the name is always the phrase; both coordinates are numbers or both None, never one without the other; with both convertible they are the converted values; only a malformed coordinate string raises |
| Records.PostInit | geo_llama/data.py:60-73 | an article without a source record keeps its text and toponyms; one with a source record raises NotImplementedError |
| Records.ToponymDicts | geo_llama/data.py:81-83 | one dict per toponym, in order |
| Records.ArticleToDict | geo_llama/data.py:75-84 | the id reads back as the text id, and there is one toponym dict per toponym, in order |
| Records.ArticleNames | geo_llama/data.py:60-84 | a hand-built article keeps its toponyms and serialises their names in order |
| PyStrings.JoinSplit | geo_llama/model.py:379 | splitting and joining with the same separator gives the string back |
| PyStrings.SplitJoinFirstChar | geo_llama/model.py:379 | pieces free of the separator's first character split back apart after joining |
| PyLists.Dedup | geo_llama/model.py:381 | the deduplicated list is distinct and has exactly the elements of the input |
| PyLists.DedupDistinct | geo_llama/model.py:381 | deduplicating a list with no repeats changes nothing |
| PyLists.SubsequenceDistinct | geo_llama/model.py:393-397 | a subsequence of a list with no repeats has none |
| PyLists.FilterSpec | geo_llama/model.py:393-397 | a comprehension with a condition keeps exactly the elements that satisfy it, in order, each with its multiplicity |

## Left out

- Model loading, file reading of templates and configuration, tokenizers and generation: the generation oracle is a field of `Pipeline.LanguageModel`, and templates and markers are values.
- The stand-in test classes (the dummy model, tokenizer, output and gazetteer): scaffolding. Their behaviour appears only as test inputs in `Scenarios` and `Prompt.GetResponseExample`.
- HTTP: the session, timeouts, status-code printing and the User-agent header. The backend is the input `fetch` (URL to decoded body, or None for a request exception).
- `json.loads` and `urllib.parse.quote`: inputs (`loads`, `quote`), since they are library parsers and encoders.
- `ast.literal_eval`: restricted to decimal numbers, True, False and None. Other literals give a malformed-literal error.
- `float` arithmetic: coordinates are `real`, so the 0.001 tolerance is exact rather than IEEE.
- Python's `\w` and `isalpha`/`isnumeric`: restricted to ASCII letters and digits, `_` and the Latin letters U+00C0-U+017F. Other scripts and non-ASCII digits are not classified.
- `str.format` fields other than `{}` (numbered, named, with format specs): an explicit unsupported-format error.
- Dict key order: Python dicts are maps here. A dict given where the toponym list is expected is treated as unsupported, since iterating it depends on that order.
- The printing of the toponym and matches in get_matches: output only. The timestamp is the input `clock`.
- Numbers.ToFloat: accepts only an optional `-`, digits and an optional fraction with digits. Python's `float()` also accepts surrounding whitespace, `+`, `.5`, `5.`, exponents, `inf`, `nan` and `_` between digits; those give ValueError here. Coordinates come from gazetteer bodies and model replies written as plain decimals.
- Numbers.LiteralEval: the same decimal forms only (see `ast.literal_eval` above).
- `str(matches)` in `geoparse_prompt`: the printing of a list of dicts is the input `printMatches` of `Pipeline.Library`, since it depends on Python's repr of each value.
- Records.ArticleToDict: the id is an integer; `str()` of other values is not modelled, because `str()` of an arbitrary object depends on that object's own `__str__`, which is outside the model.
- TopoModel.Items: `list(set(items))` has no defined order; the model keeps first occurrences in order.
- The XML article subclasses, the translator, the app, the plotting helpers and the packaging script: out of the core.
- The tests' `build_url` method (tests/test_gazetteer.py:70-97): the class has no such method. The URLs are stated by `Gazetteer.NominatimUrlParameters` and `Gazetteer.GeonamesUrlParameters` instead.
- Single-flight caching and concurrent lookups: the code is sequential.
- The `GeoLlama` constructor: a `Gazetteer.New` call with the given source and username.

## Findings

| source | as written | input that shows it | evidently intended | confidence | as-written member | corrected member |
|---|---|---|---|---|---|---|
| geo_llama/model.py:225-233 | a missing key moves the index on by four (two in the branch, two after), so a second missing key is inserted two places too far | words `name Paris RAG_estimated true`: longitude lands after RAG_estimated, and fix_json then raises on the latitude | the index moves on by two per key, keeping each pair in declared order | high; not executed | RagModel.AddMissingKeysAsWrittenMisplaces | RagModel.AddMissingKeysRestoresLayout |
| geo_llama/model.py:374-377 | when the list text ends in a letter or digit, the loop breaks with `i == 0` and `list_part[:-0]` is empty | `{"toponyms":["toponym1", "toponym2", "top` | nothing is stripped and every toponym is kept | high; not executed | Scenarios.TopoFixJsonAsWrittenDropsAll | TopoModel.RepairList |
| geo_llama/model.py:372-377 | when nothing follows the first `["`, the loop body never runs and `i` is unbound at `list_part[:-i]` | `{"toponyms": ["` | no toponyms | medium; not executed | Scenarios.TopoEmptyListRaises | TopoModel.RepairList |
| geo_llama/gazetteer.py:91 | results are cached under the constant key `'query'` | any query other than `query`, asked twice, is requested twice | results are cached under the query text | high; not executed | Gazetteer.CacheKeyAsWritten | Gazetteer.QueryThenCached |
| geo_llama/gazetteer.py:69 | `_geonames_query(query, self.username)` passes two arguments to a method that takes one | any uncached GeoNames query with a username raises TypeError | `_geonames_query(query)` | high; not executed | Gazetteer.GeonamesBranchAsWritten | Gazetteer.Query |
| geo_llama/gazetteer.py:124 | a failed GeoNames request returns `{'geonames': []}` | a request exception; the test at tests/test_gazetteer.py:135-143 expects length 0 | an empty list | high; not executed | Gazetteer.GeonamesFailureAsWritten | Gazetteer.GeonamesQuery |
| geo_llama/gazetteer.py:28 | the default source is spelled `'nominatm'`, so no base URL is set and every query answers None | `Gazetteer()` | `'nominatim'`, as the class documentation says | high; not executed | Gazetteer.DefaultSourceAsWritten | Gazetteer.NewDefault |
| geo_llama/model.py:352-359 | a reply that parses strictly keeps repeated toponyms; only the repair path deduplicates | `{"toponyms": ["Paris", "Paris"]}` with `Paris` in the text gives `["Paris", "Paris"]` | no repeated toponyms, as the docstrings at geo_llama/model.py:344 and geo_llama/main.py:73,78 say | medium; not executed | Scenarios.TopoStrictKeepsRepeats | TopoModel.CleanResponse |
| geo_llama/gazetteer.py:135 | the display name joins all three parts, empty ones included | a record without `adminName1` gives `name_2, , country_2` (tests/test_gazetteer.py:145-175 expects `name_2, country_2`) | empty parts are skipped | medium; not executed | Gazetteer.FormatGeonamesAsWrittenExample | Gazetteer.DisplayNameParts |
