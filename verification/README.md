# Brochure generation route, modelled in Dafny

This project models the `POST` handler of `/api/generate-brochure`
(`app/api/generate-brochure/route.ts`). The handler turns a JSON object of
property fields into a chat prompt, sends it to a language model, strips
Markdown code fences from the reply, and returns the parsed JSON. A reply that
does not parse becomes a fixed placeholder with status 200. A failure while
reading the body or calling the model becomes a fixed error object with
status 500.

The model is pure. The two things the handler cannot compute itself are
function-typed parameters of `Route.Post`:

- `complete: ChatRequest -> Completion` stands for the chat-completion call.
  It either fails or returns an optional message content.
- `parse: string -> Option<Json>` stands for `JSON.parse`. It yields `None`
  where `JSON.parse` throws.

Modules, in pipeline order:

- `Wrappers`: `Option`.
- `Strings`: JavaScript's `trim` (with the full ECMAScript WhiteSpace and
  LineTerminator set), `startsWith`, single-character global `replace`, and
  `join`.
- `SectionBuilder`: the entry filter, labels, sections and the joined sections
  string (lines 15-21).
- `Prompt`: the two messages and the request (lines 24-47).
- `Fences`: the completion text and the fence stripping (lines 50-53).
- `Route`: the parse-or-placeholder step and the whole handler (lines 9-76).

A body with no non-blank string field is not rejected: the model is still
called, with an empty sections string (`Prompt.EmptyBodyStillRequested`). The
parsed reply is returned without checking for `headline`, `summary` or
`bulletPoints`: whatever value the parser yields is the response body
(`Route.Interpret`).

## Model

| member | source | states |
|---|---|---|
| Strings.Trim | app/api/generate-brochure/route.ts:16 | the trimmed string is no longer than the input and neither starts nor ends with whitespace |
| Strings.TrimSplits | app/api/generate-brochure/route.ts:19 | the input is all-whitespace prefix, then the trimmed string, then all-whitespace suffix |
| Strings.TrimOfPadded | app/api/generate-brochure/route.ts:19 | any whitespace around a string without outer whitespace is removed exactly, so trim is fully characterised |
| Strings.TrimEmptyIff | app/api/generate-brochure/route.ts:16 | `value.trim() !== ''` holds exactly when the value has a non-whitespace character |
| Strings.TrimIsSlice | app/api/generate-brochure/route.ts:52 | the trimmed string is a contiguous slice of the input |
| Strings.TrimIdempotent | app/api/generate-brochure/route.ts:52 | trimming an already trimmed string changes nothing |
| Strings.ReplaceAll | app/api/generate-brochure/route.ts:19 | a global single-character replace keeps the length, rewrites every occurrence and leaves every other character in place |
| Strings.StartsWithPointwise | app/api/generate-brochure/route.ts:51 | `startsWith` holds exactly when the first characters match one by one, and then the text is the prefix followed by the rest |
| Strings.Join | app/api/generate-brochure/route.ts:21 | the empty list joins to `""`; otherwise the joined string begins with the first element |
| Strings.JoinSnoc | app/api/generate-brochure/route.ts:21 | joining one more element adds the separator then that element, except for the first element |
| Strings.JoinAppend | app/api/generate-brochure/route.ts:21 | joining two non-empty lists puts exactly one separator between the two joins |
| SectionBuilder.Qualifies | app/api/generate-brochure/route.ts:16 | an entry passes the filter exactly when its value is a string with at least one non-whitespace character |
| SectionBuilder.Label | app/api/generate-brochure/route.ts:19 | the label has the key's length and no underscore; each `_` becomes a space and every other character is kept |
| SectionBuilder.ToSection | app/api/generate-brochure/route.ts:18-19 | the section's label is the key with every `_` made a space (so it keeps the key's length and has no underscore); its content is the value with only outer whitespace removed, and is empty exactly when the entry fails the filter |
| SectionBuilder.Render | app/api/generate-brochure/route.ts:19 | the rendered text is the label, then `":\n"`, then exactly the content |
| SectionBuilder.Sections | app/api/generate-brochure/route.ts:15-20 | at most one section per entry; every label is free of underscores; every content is non-empty and trimmed |
| SectionBuilder.Origins | app/api/generate-brochure/route.ts:15-16 | the source positions of the sections are strictly increasing, each one qualifies, and no qualifying position is missing |
| SectionBuilder.SectionsFromOrigins | app/api/generate-brochure/route.ts:15-20 | section k is the section of entry `Origins[k]` (its key with each `_` made a space as label, its trimmed value), so an entry contributes iff it is a non-blank string, in body order |
| SectionBuilder.SectionsAppend | app/api/generate-brochure/route.ts:15-20 | the sections of a concatenated body are the sections of the first part followed by those of the second |
| SectionBuilder.SectionsSingle | app/api/generate-brochure/route.ts:16-19 | one entry yields its section if it qualifies and nothing otherwise |
| SectionBuilder.SectionsTextEmptyWhenNoSections | app/api/generate-brochure/route.ts:21 | the sections string is empty exactly when there are no sections |
| SectionBuilder.SectionsText | app/api/generate-brochure/route.ts:15-21 | the sections string is empty exactly when no entry is a non-blank string |
| SectionBuilder.SectionsTextSnoc | app/api/generate-brochure/route.ts:15-21 | appending an entry leaves the string unchanged if the entry does not qualify; otherwise it adds `"\n\n"` (unless first) and `label:\ncontent` |
| Prompt.UserContent | app/api/generate-brochure/route.ts:38 | the user message is the fixed prefix, then exactly the sections string, then the fixed suffix |
| Prompt.UserContentRoundTrip | app/api/generate-brochure/route.ts:38 | the sections string can be read back from the user message exactly |
| Prompt.UserContentDecodes | app/api/generate-brochure/route.ts:38 | a text decodes to a sections string exactly when it is the user message built from that string |
| Prompt.Messages | app/api/generate-brochure/route.ts:24-40 | exactly two messages: the fixed system text, then a user message that decodes to the given sections string |
| Prompt.BuildRequest | app/api/generate-brochure/route.ts:43-47 | model `gpt-3.5-turbo`, temperature 0.7, the fixed system message first, and a user message carrying exactly the body's sections string |
| Prompt.RequestDeterminedBySections | app/api/generate-brochure/route.ts:24-47 | two bodies give the same request iff they give the same sections string |
| Prompt.UserMessageText | app/api/generate-brochure/route.ts:24-47 | the request's user message is `"Property Details:\n\n"`, the body's sections string, then the fixed closing instruction |
| Prompt.EmptyBodyStillRequested | app/api/generate-brochure/route.ts:15-40 | a body with no qualifying entry still yields a request whose user message is prefix followed by suffix |
| Fences.StripFences | app/api/generate-brochure/route.ts:52 | removing the regex matches never lengthens the text |
| Fences.StripJsonFenceHead | app/api/generate-brochure/route.ts:52 | a leading ```` ```json ```` is deleted whole, whatever follows it |
| Fences.StripFenceHead | app/api/generate-brochure/route.ts:52 | a leading ```` ``` ```` not followed by `json` is deleted on its own |
| Fences.StripFencesPrefix | app/api/generate-brochure/route.ts:52 | fence-free text not ending in a backtick is copied unchanged and the replacement carries on after it |
| Fences.FirstFenceSplit | app/api/generate-brochure/route.ts:52 | the text before the first fence is copied unchanged and the rest is replaced from that fence on; with the two head rules and `StripFencesIdentity` this fixes the result on every input |
| Fences.StripFencesFenceFree | app/api/generate-brochure/route.ts:52 | after the replacement no three backticks in a row remain |
| Fences.StripFencesIdentity | app/api/generate-brochure/route.ts:52 | text with no three backticks in a row is left unchanged |
| Fences.StripFencesIdempotent | app/api/generate-brochure/route.ts:52 | applying the replacement twice is the same as applying it once |
| Fences.StripClosingFence | app/api/generate-brochure/route.ts:52 | a closing fence after fence-free text is removed and nothing else is |
| Fences.JsonTagInsideBlock | app/api/generate-brochure/route.ts:52 | the `json` alternative matches at the opening of a bare fence only when the content starts with `json` |
| Fences.DeFence | app/api/generate-brochure/route.ts:51-53 | text not starting with three backticks is untouched; otherwise the result is the trimmed replacement of every fence, has no fence and no outer whitespace |
| Fences.CompletionText | app/api/generate-brochure/route.ts:50 | absent content becomes `""`; present content is kept |
| Fences.DeFenceJsonBlock | app/api/generate-brochure/route.ts:51-53 | a reply of the form ```` ```json ```` + c + ```` ``` ```` with fence-free c de-fences to `trim(c)` |
| Fences.DeFenceBareBlock | app/api/generate-brochure/route.ts:51-53 | the same for a bare ```` ``` ```` fence when c does not start with `json` |
| Fences.DeFenceFencedReply | app/api/generate-brochure/route.ts:51-53 | a ```` ```json ```` block followed by more text de-fences to the block content followed by that text with its own fences deleted, trimmed as a whole |
| Fences.DeFenceIdempotent | app/api/generate-brochure/route.ts:51-53 | de-fencing de-fenced text changes nothing |
| Route.Interpret | app/api/generate-brochure/route.ts:56-68 | status is 200; a parsed value is the body unchanged; a parse failure gives the placeholder |
| Route.Post | app/api/generate-brochure/route.ts:9-76 | status is 200 or 500; it is 500 exactly when the body read or the model call fails, and then the body is the fixed error object |
| Route.PostRepliedIsInterpreted | app/api/generate-brochure/route.ts:43-57 | a readable body and a successful call give status 200 and the interpretation of the model's reply to that body's request |
| Route.PostDependsOnlyOnRequest | app/api/generate-brochure/route.ts:43-47 | two model functions that agree on the body's request give the same response |
| Route.UnreadableBodySkipsModel | app/api/generate-brochure/route.ts:69-74 | an unreadable body gives the 500 error whatever the model would do |
| Route.AbsentCompletionIsEmpty | app/api/generate-brochure/route.ts:50 | an absent completion is handled as `""`, and if `""` does not parse the placeholder is returned |
| Route.UnfencedReachesParser | app/api/generate-brochure/route.ts:51-57 | a reply not starting with three backticks is parsed exactly as received |
| Route.FencedLikeUnwrapped | app/api/generate-brochure/route.ts:50-57 | a ```` ```json ```` block around fence-free c gives the same response as `trim(c)` sent bare |

## Left out

- The React pages `app/henderson-connellan-brochure-writer/page.tsx` and `app/page.tsx`: form state, `fetch`, `alert` and clipboard code are presentation, not part of the route.
- The OpenAI client and the network call: modelled as the `complete` parameter. Its construction from `process.env` is left out.
- The grammar of `JSON.parse`: modelled as the `parse` parameter. The `Json` datatype carries numbers as `real`, with no IEEE-754 rounding.
- Serialisation of the response by `NextResponse.json`: the response carries the `Json` value itself.
- `console.error` logging: it has no effect on the returned value.
- `req.json()` and `Object.entries(data)`: the body arrives as the ordered list of entries `Object.entries` would produce, or as `None` when either throws. The order `Object.entries` gives to integer-like keys, and the entries of a non-object body (an array, a string), are not modelled.
- Strings are sequences of Unicode code points, not UTF-16 code units. The whitespace that `trim` removes lies in the Basic Multilingual Plane, so trimming agrees on it.
- A completion whose `choices` array is missing makes the route throw. It is folded into `CallFailed`.
