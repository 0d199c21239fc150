# ec-tl-parser, modelled in Dafny

ec-tl-parser harvests certificates from the EU trusted lists. For every member state it reads the trusted list. It walks the trust service providers and their services and keeps the services that pass a filter cascade:

- the country allow-list;
- the provider allow-list;
- the service-type and service-status lists;
- optionally, the "additional service information" URIs of ETSI TS 119 612 clause 5.5.9.4.

For each kept service whose certificate OpenSSL can read and which has not expired, it appends a record. The record is written to `output.csv`, a `.cer` file, and the issuer certificates named in the authority information access extension.

This project models that pipeline from the point where the trusted list has become nested PHP arrays. It covers:

- The vocabularies: ETSI TS 119 612 clauses 5.5.1 and 5.5.4, and the algorithm labels (`vocabulary.dfy`).
- `sxiToArray`, the XML-to-array conversion, over parsed elements (`xml_tree.dfy`).
- `joinSubject` and `patchCRL` (`subject_text.dfy`).
- The filter cascade (`filters.dfy`).
- The two PEM renderings of a certificate: `chunk_split` for OpenSSL, and `wordwrap` for the `.cer` file, per RFC 7468 (`pem.dfy`).
- The per-certificate record, the expiry gate and the file names (`certificates.dfy`).
- `downloadRoot` (`issuer_download.dfy`).
- The whole walk with its record numbering (`harvest.dfy`).

`php_strings.dfy` gives the PHP string built-ins the code relies on, with PHP's own semantics:

- `trim` strips `" \t\n\r\0\x0B"`;
- `str_replace` with an empty replacement deletes non-overlapping occurrences left to right;
- `explode`/`implode`;
- integer-to-string conversion.

The outside world enters as parameters:

- OpenSSL is a function from PEM text to a `Reading` (the parsed certificate and key size, each optional);
- the HTTP client is a function from URL to an optional response body;
- the current time is an integer `now`.

The CRL column does not list the distribution-point URIs one by one. `patchCRL` deletes the labels and the line breaks, so several URIs run together with nothing between them (`SubjectText.PatchCrlTwoPoints`); the model keeps that behaviour.

The walk (`Harvest.Walk`) is stated over any per-service step `RootOf`. Its soundness, completeness and origin lemmas are instantiated with the harvester's own step, `Harvest.Step`, which yields `Harvest.ServiceRoot` for every service.

## Model

| member | source | states |
|---|---|---|
| PhpStrings.Trim | functions.php:111 | PHP `trim`: the result is a contiguous slice of the input with no trim character at either end, and everything cut off before and after it consists of trim characters only |
| PhpStrings.TrimPadded | index.php:170 | surrounding any trimmed text with blanks of the trim set and trimming again gives back exactly that text |
| PhpStrings.TrimIdempotent | index.php:170 | trimming twice is trimming once |
| PhpStrings.SubstrTailIsEndsWith | functions.php:102 | `substr($s, -n) === $suffix` holds exactly when `$s` ends with the n-character suffix, including when `$s` is shorter than n |
| PhpStrings.RemoveAll | functions.php:166 | `str_replace($p, '', $s)` never lengthens and only deletes characters; without an occurrence of `$p` (or with an empty `$p`) the subject is unchanged |
| PhpStrings.RemoveAllClean | functions.php:166 | when no occurrence of the search string starts in the first n characters, `str_replace` keeps those n characters as they are and treats the rest on its own |
| PhpStrings.RemoveAllLeftmost | functions.php:166 | `str_replace` deletes the leftmost occurrence of the search string, keeps the text before it, and goes on after it: a + p + b becomes a + (b with p removed) when no occurrence starts inside a |
| PhpStrings.RemoveAllChar | functions.php:166 | deleting a one-character search string removes every copy of that character and keeps all other characters in order |
| PhpStrings.ReplaceChar | index.php:231 | `str_replace(['/'], '_', ...)` keeps the length, turns every '/' into '_', keeps every other character in place, and leaves no '/' behind |
| PhpStrings.ReplaceCharInvertible | index.php:231 | when the replacement character did not occur, replacing back restores the original |
| PhpStrings.Split | index.php:271 | `explode("\n", ...)` yields at least one part, no part contains the separator, and re-joining the parts with the separator gives back the input |
| PhpStrings.SplitJoin | index.php:271 | `explode` undoes `implode` when no part contains the separator |
| PhpStrings.NatToDecimal | functions.php:103 | the decimal form of a count is non-empty, all digits, without leading zero |
| PhpStrings.IntDecimalRoundTrip | index.php:231 | the decimal rendering of an integer parses back to that integer |
| Vocabulary.Lookup | functions.php:54-60 | a table lookup fails exactly when no entry has the key, and otherwise returns a value stored under that key |
| Vocabulary.TranslateType | functions.php:27-61 | a listed service-type URI maps to its table label; any other URI is returned unchanged |
| Vocabulary.TypeTableDistinct | functions.php:29-53 | the 22 service-type URIs, one spelt with "TrstSvd", are pairwise distinct, so no literal entry is shadowed by a later one |
| Vocabulary.TypeTableLabels | functions.php:29-60 | every URI in the type table translates to the label written next to it |
| Vocabulary.TranslateState | functions.php:123-134 | a known status URI maps to the label written next to it in the status table |
| Vocabulary.TranslateStateInjective | functions.php:125-131 | the four status labels tell the four statuses apart: equal labels iff equal URIs |
| Vocabulary.TranslateAlgorithm | functions.php:99-107 | a name ending in "WithRSAEncryption" becomes "RSA-" followed by the key size; every other name is kept |
| Vocabulary.RsaLabelCarriesBits | functions.php:102-103 | the key size can be read back from an RSA label |
| Vocabulary.TranslateSig | functions.php:109-120 | a name that trims to "RSA-SHA256" or "RSA-SHA1" becomes "SHA-256" or "SHA-1"; any other name is returned untrimmed |
| Vocabulary.TranslateSigIgnoresPadding | functions.php:111-116 | trim-set padding around a known short name does not prevent its translation |
| XmlTree.Group | functions.php:143-155 | the array built by the loop has pairwise distinct keys and holds exactly one value per visited child |
| XmlTree.AddKeeps | functions.php:145-152 | one loop iteration adds the key only when it is new, stores exactly one more value, and appends it to that key's list without touching any other list |
| XmlTree.GroupGet | functions.php:143-155 | under each key the array holds the values of exactly the children with that tag, in document order; an absent key reads as empty |
| XmlTree.GroupKeys | functions.php:145-147 | the array has a key for a tag iff some visited child carries that tag |
| XmlTree.GroupOrder | functions.php:145-147 | keys appear in the order of each tag's first occurrence among the children |
| XmlTree.ChildValue | functions.php:148-152 | a child with children becomes a nested array with one value per grandchild; a child without children becomes its text |
| XmlTree.SxiToArray | functions.php:141-156 | the converted element has distinct keys, as many values as children, and a key for exactly the tags present |
| XmlTree.SxiToArrayLookup | functions.php:141-156 | looking up a tag in the converted element yields the converted children with that tag, in document order |
| XmlTree.SxiToArrayKeyOrder | functions.php:141-156 | the keys of the converted element follow first-occurrence order of the tags |
| SubjectText.JoinSubject | functions.php:70-89 | the subject text is empty iff the subject has no attribute, and is at least one character per attribute |
| SubjectText.JoinSubjectEnds | functions.php:73-86 | a non-empty subject text opens with the first attribute's key and '=' and closes with the rendering of the last attribute's value |
| SubjectText.JoinSubjectConcat | functions.php:70-89 | the rendering of a subject is the concatenation of its attributes' renderings, with no separator |
| SubjectText.JoinSubjectSingle | functions.php:78-85 | one attribute renders as key=value, with a repeated attribute's values joined by single spaces |
| SubjectText.MultiValueWords | functions.php:78-79 | the values of a repeated attribute can be recovered by splitting at the spaces, when they contain none |
| SubjectText.JoinSubjectAmbiguous | functions.php:73-86 | because no separator is inserted, two different subjects can render to the same text |
| SubjectText.PatchCrl | functions.php:164-170 | the flattened CRL text contains no line break, is never longer than the input, and equals the input when none of the three search strings occurs |
| SubjectText.StripFullName | functions.php:166 | the first pass deletes every "Full Name:" label of OpenSSL's distribution-point text and nothing else |
| SubjectText.BreaksFramed | functions.php:166 | the second pass deletes the line breaks around each entry and nothing else |
| SubjectText.StripUriLabel | functions.php:166 | the third pass deletes every "  URI:" label and leaves the URIs, in order |
| SubjectText.PatchCrlPoints | functions.php:164-170 | on OpenSSL's rendering of any list of distribution points (each "Full Name:", a line break, "  URI:", the URI and a line break), `patchCRL` returns exactly the URIs in order, run together with no separator, when no URI holds a line break or either label |
| SubjectText.PatchCrlOnePoint | functions.php:166 | one distribution point flattens to exactly its URI |
| SubjectText.PatchCrlTwoPoints | functions.php:166 | two distribution points flatten to their two URIs glued together, u1 + u2, with nothing between them |
| Filters.SelectAllowed | index.php:67-70 | the loop keeps exactly `KeptNames`: the listed names that pass `Allowed` (the same test the walk applies to countries and providers), in list order, each as often as it is listed; a name is kept iff it passes; with the filter off everything is kept; with the filter on and no listed name allowed nothing is |
| Filters.KeptNamesMembers | index.php:67-70 | a name is among the kept names iff it is listed and passes the filter |
| Filters.KeptNamesOff | index.php:67 | with the filter off the kept names are the listed names, in order and with repeats |
| Filters.KeptNamesNone | index.php:67-68 | with the filter on and no listed name on the allow-list, nothing is kept |
| Filters.FoundExt | index.php:148-153 | the flag ends up raised iff some collected URI is on the allow-list |
| Filters.InfoUris | index.php:141-146 | at most one URI is collected per extension |
| Filters.InfoUrisFrom | index.php:141-146 | every collected URI is read from an extension carrying additional service information, and nothing is collected iff no extension carries it |
| Filters.InfoUrisSkipsOthers | index.php:141-146 | extensions without additional service information contribute no URI, wherever they stand |
| Filters.MatchesConcat | index.php:139-157 | the capability test over a list of extensions is the disjunction of the test over its parts |
| Filters.ServiceVerdict | index.php:124-157 | a service is dropped for its type iff the type is not listed, for its status iff the type is listed and the status is not, and kept iff both are listed and, with the capability filter on, an allowed URI is found |
| Filters.VerdictMonotone | index.php:124-157 | widening the configuration never drops a service that was kept |
| Filters.VerdictIgnoresExtensionsWhenOff | index.php:139 | with the capability filter off, the extensions play no part in the verdict |
| Pem.Chunks | index.php:170 | the pieces spell the input, each has 1 to n characters, and all but the last have exactly n |
| Pem.ChunkSplit | index.php:170 | `chunk_split` puts each piece on a line of its own; the empty input gives a single empty line |
| Pem.Armour | index.php:169-171 | the trimmed certificate can be read back out of the PEM text handed to OpenSSL |
| Pem.ArmourIgnoresPadding | index.php:170 | surrounding blanks of the certificate do not change the PEM text |
| Pem.ArmourShape | index.php:169-171 | the PEM text is the begin line, then pieces of exactly 64 characters except a last piece of 1 to 64, each followed by a line break, then the end line; the pieces spell the trimmed certificate |
| Pem.ArmourJoin | index.php:169-171 | the PEM text is its begin line, pieces and end line joined with line breaks, ending in a line break |
| Pem.ArmourLines | index.php:169-171 | when the trimmed certificate has no line break of its own, the lines of the PEM text are the begin line, the pieces and the end line; for a non-empty certificate these are the 64-character lines RFC 7468 section 2 requires, while an empty one yields a single empty line between the two, because `chunk_split` of the empty string returns a line break |
| Pem.WrappedInputLines | index.php:170 | a certificate value that already contains a line break keeps that break inside a `chunk_split` piece, so the lines reaching OpenSSL are not all 64 characters long |
| Pem.WrappedInputCut | index.php:170 | `chunk_split` still cuts every 64 characters counting the inner break: two 40-character halves joined by a break become lines of 40, 23 and 17 characters |
| Pem.WordWrap | index.php:233 | on text without blanks, `wordwrap` with forced cut breaks it into lines of exactly the width, the last one of at most the width |
| Pem.WrapMatchesChunkSplit | index.php:170 | on text without blanks, the wrapped text plus a line break equals `chunk_split`'s output |
| Pem.CerText | index.php:233 | the `.cer` text opens with the begin line and closes with the end line; for a certificate without blanks it is the PEM text given to OpenSSL minus its final line break |
| Certificates.KeyAlgorithms | index.php:174-187 | both labels are "unknown" when the parse, the key or either signature name is missing; otherwise the public-key label is "RSA-" and the key size for an RSA long name and the long name itself for any other, and the signature label is "SHA-256" or "SHA-1" for the two RSA short names and the untrimmed short name for any other |
| Certificates.PubKeyLabelKinds | index.php:183 | the public-key label is either the signature long name itself or "RSA-" followed by the key size |
| Certificates.SubjectField | index.php:199 | a subject attribute lookup finds the first attribute with the key, and fails iff there is none |
| Certificates.CommonName | index.php:199-202 | the common name is a CN value of the subject when it has one, and the whole subject joined otherwise |
| Certificates.CommonNameIgnoresOthers | index.php:199 | attributes before and after the first CN do not affect the common name |
| Certificates.CrlField | index.php:195-198 | the CRL column is empty without the extension, and otherwise a one-line text no longer than the extension |
| Certificates.CrlFieldUris | index.php:195-198 | when OpenSSL renders the extension as a list of distribution-point URIs, the CRL column is exactly those URIs run together in order |
| Certificates.MakeRoot | index.php:204-227 | a record exists iff the certificate expires strictly after now, and then every column is fixed: type and status labels, country, service name as title and description, common name, validity dates, both algorithm labels, serial number, CRL field and certificate text |
| Certificates.ExpiresAtNow | index.php:204 | a certificate ending exactly now is dropped; one ending a second later is kept |
| Certificates.Sanitise | index.php:231 | the subject part of a file name contains no '/', turns each '/' of a text subject into '_' and keeps every other character in place, and is "Array" for a multi-valued one |
| Certificates.SanitiseInvertible | index.php:231 | a subject without underscores can be read back from its sanitised form |
| Certificates.CerFileName | index.php:231 | a `.cer` file name has no '/' and ends in ".cer" |
| Certificates.RootFileName | index.php:231-240 | the issuer file name has no '/', ends in " ROOT.cer", and is five characters longer than the record's `.cer` name |
| Certificates.CerFileNameCount | index.php:229-231 | the record number can be read back from the start of the file name |
| Certificates.CerFileNamesDistinct | index.php:229-231 | records with different numbers never share a `.cer` file |
| Certificates.NumberedName | index.php:231 | a numbered file name ends in its ending and has no '/' when the ending has none |
| Certificates.NumberedNameCount | index.php:229-240 | the record number can be read back from the text before the first space of either file name |
| Certificates.RootFileApart | index.php:231-240 | an issuer file never has the name of the `.cer` file of another record or of its own record |
| Certificates.RootFileNamesDistinct | index.php:240 | records with different numbers never share an issuer file |
| IssuerDownload.IssuerUrl | index.php:275 | removing the label never lengthens a line; a labelled line loses at least the label, and becomes exactly the text after the label when the label does not occur again there; a line without the label is unchanged |
| IssuerDownload.IssuerUrlIsReplace | index.php:275 | the URL taken from a line is what `str_replace` of the label with '' leaves of it |
| IssuerDownload.IssuerUrlOfLabelled | index.php:274-275 | a line made of the label and a URL yields exactly that URL |
| IssuerDownload.IssuerUrlsRoundTrip | index.php:271-275 | rendering URLs one per line behind the label and extracting them again gives the same URLs in order |
| IssuerDownload.IssuerLinesSkipsOthers | index.php:274 | lines not starting with the label, such as OCSP locations, add no request wherever they stand |
| IssuerDownload.IssuerLines | index.php:271-275 | at most one URL is requested per line of the extension text |
| IssuerDownload.IssuerLinesFrom | index.php:271-275 | every requested URL is the remainder of a line carrying the issuer label |
| IssuerDownload.IssuerLinesEmpty | index.php:273-274 | nothing is requested iff no line carries the issuer label |
| IssuerDownload.IssuerLinesNone | index.php:273-274 | without a labelled line nothing is requested |
| IssuerDownload.FetchIssuers | index.php:273-288 | the URLs requested are a prefix of the labelled URLs; all but the last request succeeded; the run stops early only after a failure; the issuer file holds the last successful body |
| IssuerDownload.DownloadRoot | index.php:269-289 | the same outcome stated for the extension text as a whole |
| Harvest.ServiceRoot | index.php:116-243 | a service yields a record iff it passes the type, status and capability filters, carries a certificate OpenSSL reads, and has not expired; the record carries the translated type and status, the country, the service name as title and as description, the certificate text, and OpenSSL's common name, validity, serial number, CRL field and translated algorithm labels |
| Harvest.StepIsSound | index.php:124-204 | every record the harvester's step yields passes the type and status lists and the expiry gate |
| Harvest.WalkAdmissible | index.php:58-253 | for any sound step, every record of the walk has a listed type and status, a kept country, a future expiry and a one-line CRL field |
| Harvest.HarvestAdmissible | index.php:58-253 | every record of the harvest belongs to a kept country, has a listed type and status, a one-line CRL field, and a certificate valid after now |
| Harvest.WalkComplete | index.php:58-253 | for any step, a record yielded for a service of a kept provider in a kept country with a provider list appears in the walk's output |
| Harvest.HarvestComplete | index.php:58-253 | every service that passes every filter and the expiry gate, under a kept provider in a kept country, is recorded |
| Harvest.ServiceRootsOrigin | index.php:113-245 | every record of the services loop is the record of one of its services |
| Harvest.ProviderRootsOrigin | index.php:95-249 | every record of the providers loop is the record of a service of a kept provider |
| Harvest.WalkOrigin | index.php:58-253 | for any step, every record of the walk is yielded for some service of a kept provider in a kept country |
| Harvest.HarvestExactly | index.php:58-253 | a record is in the harvest iff it is the record of a service, at some position in the lists, that passed the country, provider, type, status and capability filters and the expiry gate |
| Harvest.NumberedDistinct | index.php:228-231 | numbering records by their count gives every record its own `.cer` file |
| Harvest.Record | index.php:228-231 | appending a record names its file after the new count and keeps the numbering intact |
| Harvest.CollectServices | index.php:113-245 | the services loop appends exactly the records of the services in order and keeps the numbering |
| Harvest.VisitProvider | index.php:103-106 | a filtered-out provider adds nothing; otherwise its services' records are appended |
| Harvest.CollectProviders | index.php:95-249 | the providers loop appends the records of the kept providers in order |
| Harvest.Walk | index.php:58-253 | for any step, the loop produces exactly the records of the kept countries in order, each numbered by its position |
| Harvest.Harvest | index.php:58-253 | the harvester's output is the ordered records of the walk with its own step, exactly those of the qualifying services, each numbered and admissible, with the issuer download each record triggers; no issuer file collides with a `.cer` file or with another issuer file |
| Harvest.IssuerJob | index.php:237-241 | a record triggers a download iff OpenSSL reads its certificate and finds the authority information access extension; the download goes to the issuer file numbered like the record and is handed OpenSSL's text of that extension |
| Harvest.IssuerJobs | index.php:237-241 | there is one download entry per record, in record order, numbered from 1 |
| Harvest.IssuerFilesApart | index.php:228-241 | with numbered records, no issuer file name equals a `.cer` file name, and no two issuer files share a name |

## Left out

- Fetching the country list and the trusted lists (index.php:42-53, 71-84), with their Guzzle clients, proxies and `die` on failure: network I/O. The walk starts from `Country` records already extracted from the trusted lists.
- `xml2array` and SimpleXML parsing of the list: the model starts from parsed `Element` trees (for `sxiToArray`) and from extracted country/provider/service records (for the walk). The nested-array navigation at index.php:95-100 and 113-118 and the `isset` at 166 are read as fields of these records.
- `base64_decode` of the list content (index.php:84): an encoding step before the parse.
- OpenSSL (`openssl_x509_parse`, `openssl_pkey_get_public`, `openssl_pkey_get_details`): a parameter from PEM text to a `Reading`.
- `time()` and `date('Y-m-d', ...)`: `now` is a parameter, and the validity dates stay integer timestamps.
- Harvest.Harvest: the whole run is judged at the single instant `now`. The source reads `time()` again for every certificate (index.php:203), after a `sleep(1)` per country (index.php:71) and network fetches, so a certificate that expires during the run is dropped by the source but recorded by the model. HarvestComplete and HarvestExactly hold for this frozen clock only.
- `sleep(1)`, `debugMessage`/`echo`, the logger (logger.php), `file_put_contents` and `fputcsv` to `output.csv`: side effects with no bearing on which records are produced. The `.cer` text and file names are modelled; writing them is not.
- table.php and config.php: presentation and a configuration literal. The configuration is the `Config` input.
- index.php:20-41: the script exits at line 41, so everything after it is unreachable as written. The model describes the walk the authors evidently meant to run.
- index.php:197 calls `patchXCRL`, which is defined in neither functions.php nor index.php; no other file is part of this model. The model uses `patchCRL` (functions.php:164-170) for the CRL column.
- The constant record columns (environment, contact details, empty OCSP and refresh fields, info-complete): literals copied into every record.
- JoinSubject: the `$index === '0'` branch (functions.php:74-76) is left out. PHP turns the array key "0" into the integer 0, so the strict comparison with the string '0' never holds.
- Vocabulary.TranslateState: requires a known status URI. The source indexes its array without a guard, and the walk only calls it for listed statuses (`Harvest.KnownStatuses`).
- Filters.InfoUri: extension shapes other than the expected nested arrays are read as "no URI". PHP would raise notices and compare `null` strictly, which never matches a string.
- Issuer chains: only the issuers named in a service certificate's own extension are fetched, as in the source; nothing is followed further.
- Harvest.Harvest lists the issuer download each record triggers (`IssuerJobs`) but does not perform it; `IssuerDownload.DownloadRoot` models one such download. How the `.cer` writes and the downloads interleave is not modelled.
- Pem.ArmourShape: the pieces are lines of the PEM text only when the trimmed certificate has no line break of its own (`ArmourLines`). A base64 value that arrives wrapped keeps its breaks inside the pieces, so OpenSSL then sees lines of other lengths (`WrappedInputLines`, `WrappedInputCut`).
