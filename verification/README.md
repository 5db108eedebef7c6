# django-react-blogging, modelled in Dafny

A multilingual blogging site. A Django REST backend keeps accounts (custom
users with roles, email verification, password reset tokens, Google sign-in)
and articles (categories, tags, articles with one content per language, and
comments). A React client talks to it through one axios instance. That
instance attaches the stored JWT access token to every request and forgets the
token when an answer is 401. The client probes the session with a HEAD request
to decide which routes to show. It also builds search URLs and keeps a small
Redux store.

The model describes each part in its own terms:

- Browser storage is an immutable string map (`TokenStore`).
- The axios client and its two interceptors are functions from a request and a
  raw server answer to an outcome and a new store (`HttpClient`). The server's
  answer is a parameter.
- The session probe and the two route guards are `SessionProbe` and
  `RouteGuard`. The Redux slices are `Slices`.
- `URLSearchParams` serialisation (the application/x-www-form-urlencoded
  serializer of the WHATWG URL Standard) is `FormUrlEncoding`. It carries a
  decoder and a round-trip proof.
- The pages are `Header`, `LoginPage`, `RegisterPage`, `VerifyPage`,
  `CreateArticlePage`, `ArticlePage` and `ArticleCard`. Each page's handlers
  are pure functions of the page state and the server's answers.
- `Text` holds the string primitives both sides rely on: JavaScript `trim`,
  Python `strip`, UTF-16 length, case-insensitive substring and decimal
  rendering.
- The account app is one database value (users keyed by stored email, reset
  tokens keyed by value) with one function per endpoint (`Accounts`).
- The article app's tables are `Articles`. They carry their relational
  invariants: keys, foreign keys, `unique_together` and column bounds. The
  `on_delete` cascades are functions that keep those invariants.
- Row-level writes are `Writes`. The search manager and the list filter are
  `ArticleSearch`. The article and comment managers are `Managers`.
- A query that crosses a to-many relation is a join that repeats rows until
  `.distinct()`.
- Password hashing, token minting, uuid4 values, the clock and the Google token
  check are parameters.

Where the code's behaviour departs from what it evidently means to do, both
are modelled: an `...AsWritten` member follows the code, and the corrected
member is the one the rest of the model uses (see "## Findings").

## Model

| member | source | states |
|---|---|---|
| Text.StripWithin | frontend/src/pages/CreateArticle.jsx:52-53 | the trimmed string is a contiguous slice of the input |
| Text.StripEmptyIff | frontend/src/pages/Article.jsx:32 | trimming leaves nothing exactly when every character is whitespace |
| Text.StripIdempotent | frontend/src/pages/CreateArticle.jsx:52-57 | trimming twice equals trimming once, so the stored name trims to itself |
| Text.Utf16Length | frontend/src/pages/Register.jsx:122-125 | the length the page's minimum-length rules measure lies between the code-point count and twice it |
| Text.NatToStringInjective | frontend/src/pages/CreateArticle.jsx:78 | distinct ids render as distinct decimal strings |
| Text.ParseNatToString | frontend/src/components/article/ArticleCard.jsx:15 | the decimal rendering of an id reads back as the id |
| Text.JsOr | frontend/src/components/article/ArticleCard.jsx:18-25 | `v \|\| fallback` gives a non-empty string value, otherwise the fallback |
| FormUrlEncoding.Utf8RoundTrip | frontend/src/components/layout/Header.jsx:62-67 | the UTF-8 bytes the query serializer percent-encodes decode back to the text |
| FormUrlEncoding.ComponentRoundTrip | frontend/src/components/layout/Header.jsx:63-65 | every search value, once serialized, reads back as itself |
| FormUrlEncoding.PairRoundTrip | frontend/src/components/layout/Header.jsx:63-65 | a serialized `name=value` pair parses back to the pair |
| FormUrlEncoding.SerializeRoundTrip | frontend/src/components/layout/Header.jsx:62-67 | `params.toString()` parses back to exactly the appended pairs, in order |
| TokenStore.GetItem | frontend/src/services/api.js:15 | `getItem` yields a value exactly when the key is stored, and then the stored value |
| TokenStore.SetItem | frontend/src/pages/Login.jsx:51-52 | `setItem` adds or overwrites one key and keeps every other key's value |
| TokenStore.RemoveItem | frontend/src/services/api.js:32 | `removeItem` drops one key, keeps the rest with their values, and is a no-op on an absent key |
| TokenStore.JsString | frontend/src/pages/Login.jsx:48-52 | a present value is stored as itself; `undefined` is coerced to a string |
| TokenStore.GetAfterSet | frontend/src/pages/Login.jsx:51-52 | reading a key just written returns the written value; other keys read as before |
| TokenStore.GetAfterRemove | frontend/src/services/api.js:32 | a removed key reads as null; other keys read as before |
| HttpClient.BearerRoundTrip | frontend/src/services/api.js:17 | the `Bearer <token>` header value gives the token back |
| HttpClient.Authorize | frontend/src/services/api.js:13-20 | a truthy stored token adds exactly `Authorization: Bearer <token>`; an absent or empty token returns the configuration unchanged; nothing but that header changes and the store is only read |
| HttpClient.Settle | frontend/src/services/api.js:26-31 | only a 2xx response reaches the success handler; a failure keeps the status of its response, or has none on network failure or timeout |
| HttpClient.Intercept | frontend/src/services/api.js:26-37 | a success passes through with the store untouched; a failure is re-rejected unchanged; exactly status 401 removes `authToken` and keeps every other key; any other failure leaves the store unchanged |
| HttpClient.Send | frontend/src/services/api.js:5-37 | one exchange: base URL, timeout and method as configured, the bearer header exactly when the token is truthy, 401 clears only `authToken`, otherwise the store is unchanged |
| HttpClient.FailuresPropagate | frontend/src/services/api.js:30-35 | the caller sees exactly the settled network result, 401 and network failures included: nothing is swallowed or retried |
| HttpClient.NoStaleTokenAfterUnauthorized | frontend/src/services/api.js:13-35 | after a 401 has been processed, the next request carries no Authorization header |
| HttpClient.EnvClientBehaviour | frontend/api/api.js:3-37 | the second client differs only in its base URL: same timeout, JSON header, bearer rule and 401 rule |
| SessionProbe.IsAuthenticated | frontend/src/context/checkAuthStatus.js:6-9 | true iff the probe resolved with status exactly 200 |
| SessionProbe.CheckAuthStatus | frontend/src/context/checkAuthStatus.js:3-11 | a HEAD to `account/userinfo/`; true iff the answer is 200; the store changes only through the client's 401 rule |
| SessionProbe.ProbeFalseCases | frontend/src/context/checkAuthStatus.js:6-10 | a resolved 204, any rejected status and a missing response all give false |
| SessionProbe.ProbeIdempotent | frontend/src/context/checkAuthStatus.js:3-11 | probing again with the same answer reports the same and leaves the store as the first probe left it |
| RouteGuard.Initial | frontend/src/protect/ProtectRouter.jsx:6-7 | a guard starts loading and not connected |
| RouteGuard.Complete | frontend/src/protect/LogOutProtect.jsx:10-21 | 200 makes `connected` truthy: `true` in ProtectRouter, and in LogOutProtect the Promise that React's updater call of the probe function returns; a rejection makes it false; another resolved status leaves it; loading ends in every case |
| RouteGuard.Render | frontend/src/protect/ProtectRouter.jsx:26-30 | the placeholder exactly while loading; then ProtectRouter shows its routes iff connected and otherwise redirects to `/login`, and LogOutProtect shows its routes iff not connected and otherwise redirects to `/` |
| RouteGuard.Mount | frontend/src/protect/LogOutProtect.jsx:9-24 | every request is the userinfo HEAD; with no answer yet the guard is loading and unchanged; after the first answer loading ends and `connected` is truthy iff it was 200; ProtectRouter sends exactly one HEAD and a 401 clears `authToken`; LogOutProtect follows the probe chain, so a first 200 always sends a second HEAD |
| RouteGuard.ProbeRequest | frontend/src/protect/LogOutProtect.jsx:12 | the probe is a HEAD to `account/userinfo/` carrying what the request interceptor attaches |
| RouteGuard.LeadingOk | frontend/src/protect/LogOutProtect.jsx:13-14 | counts the answers of 200 before the first other answer, which is what keeps the probe chain going |
| RouteGuard.Chain | frontend/src/protect/LogOutProtect.jsx:10-23 | one more probe is sent for every leading 200; the chain is still pending iff every answer so far was 200; the store loses `authToken` exactly when the answer that stopped it was a 401 |
| RouteGuard.FollowUpProbeCanSignOut | frontend/src/protect/LogOutProtect.jsx:14 | after a 200 then a 401, LogOutProtect still redirects home, has sent two HEADs, and `authToken` is gone |
| RouteGuard.OkAnswersKeepProbing | frontend/src/protect/LogOutProtect.jsx:13-14 | after n answers of 200 the guard has sent n+1 HEADs, one is still pending, and the store is unchanged |
| RouteGuard.PendingIsPlaceholder | frontend/src/protect/LogOutProtect.jsx:26-28 | before the probe settles neither guard renders its routes or a redirect |
| RouteGuard.GuardsAreInverse | frontend/src/protect/LogOutProtect.jsx:31 | for the same probe outcome, ProtectRouter shows its routes exactly when LogOutProtect redirects home, and vice versa |
| RouteGuard.MountDecision | frontend/src/protect/LogOutProtect.jsx:9-31 | with no answer both guards show the placeholder; otherwise ProtectRouter shows its routes iff the first answer was 200, and LogOutProtect shows them iff it was not |
| Slices.LoadingInitial | frontend/src/features/loadingSlice.js:3-5 | `isLoading` starts false |
| Slices.ArticleInitial | frontend/src/features/articleSlice.js:3-5 | `article` starts null |
| Slices.LoadingReducer | frontend/src/features/loadingSlice.js:11-13 | `homeLoading` sets `isLoading` to its payload; other action types change nothing |
| Slices.ArticleReducer | frontend/src/features/articleSlice.js:10-12 | `resultShertchArticle` stores the whole action (its type and its payload), not the payload; other action types change nothing |
| Slices.Dispatch | frontend/src/store/store.js:4-8 | the store registers only the article slice, so `homeLoading` leaves it unchanged and a search result is stored |
| Slices.HomeLoadingIdempotent | frontend/src/features/loadingSlice.js:11-13 | applying the same `homeLoading` twice equals applying it once |
| Slices.LastSearchWins | frontend/src/features/articleSlice.js:10-11 | after two search results the slice holds the second |
| Slices.LastLoadingWins | frontend/src/features/loadingSlice.js:11-13 | after any run of actions ending with `homeLoading(f)` the flag is f |
| Slices.StoreKeepsLastSearch | frontend/src/store/store.js:4-8 | loading actions after a search leave the stored search result in place |
| Slices.LoadingOnlyRun | frontend/src/store/store.js:4-8 | a run of loading actions leaves the store unchanged |
| Header.AuthInitial | frontend/src/components/layout/Header.jsx:10-13 | auth state starts `{connected: false, loading: true}` |
| Header.CheckAuth | frontend/src/components/layout/Header.jsx:25-35 | loading ends; connected iff the articles fetch succeeded and userinfo answered 200; an articles failure skips the userinfo GET and the dispatch; a success stores the article list in the slice |
| Header.FetchTagsAndCategories | frontend/src/components/layout/Header.jsx:37-48 | both lists change only when both requests succeed; any failure keeps both |
| Header.FetchListsIdempotent | frontend/src/components/layout/Header.jsx:37-48 | loading again with the same answers changes nothing |
| Header.FailedReloadKeepsLists | frontend/src/components/layout/Header.jsx:37-48 | a failed load after a successful one keeps the lists the success brought in |
| Header.NavLinks | frontend/src/components/layout/Header.jsx:194-242 | a connected visitor gets home, create-article, profile and sign-out, in that order; an anonymous one gets home, sign-in and sign-up, in that order; each of the five links other than home appears iff its side's condition holds |
| Header.SignOutOfferedIff | frontend/src/components/layout/Header.jsx:25-35 | the header offers sign-out iff the articles GET succeeded and userinfo answered 200, and offers sign-in iff not |
| Header.InputChange | frontend/src/components/layout/Header.jsx:96-99 | the named search field takes the value and the other two keep theirs |
| Header.SearchUrl | frontend/src/components/layout/Header.jsx:62-67 | the URL is `articles/articles/?` followed by a query that parses back to exactly the built parameter list |
| Header.SearchParamsShape | frontend/src/components/layout/Header.jsx:62-65 | the query names category, keyword and tags each once, in that order, exactly when the field is non-empty, with its value, and nothing else |
| Header.EmptySearchUrl | frontend/src/components/layout/Header.jsx:62-67 | an empty form requests the bare `articles/articles/?` |
| Header.HandleSearch | frontend/src/components/layout/Header.jsx:55-94 | dispatches `homeLoading(true)` first and `homeLoading(false)` last whatever the outcome, sends a GET to the search URL, and navigates home only on success |
| Header.SearchStoresResult | frontend/src/components/layout/Header.jsx:70-73 | a successful search leaves its response in the store; a failed one leaves the store as it was |
| Header.SearchEndsNotLoading | frontend/src/components/layout/Header.jsx:89-91 | the loading flag is false after every search |
| Header.ToggleMenu | frontend/src/components/layout/Header.jsx:101-103 | the menu flag is negated |
| Header.ToggleTwice | frontend/src/components/layout/Header.jsx:101-103 | toggling twice restores the flag |
| Header.Logout | frontend/src/components/layout/Header.jsx:198-206 | `authToken` and `user` are removed; `refreshToken` and every other key keep their values |
| Header.LogoutSendsNoCredential | frontend/src/components/layout/Header.jsx:200-201 | after logout the request interceptor attaches no credential |
| LoginPage.StoreTokens | frontend/src/pages/Login.jsx:51-52 | `authToken` and `refreshToken` take the two reply fields as strings; every other key is kept |
| LoginPage.HandleSubmit | frontend/src/pages/Login.jsx:35-61 | posts email and password to `account/login/`; on success stores both tokens and reloads; a failed response shows the server's `error` field and writes no token; loading ends false |
| LoginPage.HandleGoogleLogin | frontend/src/pages/Login.jsx:13-33 | posts the credential to `account/google-login/`; success stores the same two keys; any failure shows exactly "Google login failed. Please try again." and writes no token; loading ends false |
| LoginPage.LoginAuthorizesLaterRequests | frontend/src/pages/Login.jsx:48-52 | after a successful login the next request carries the new access token as its bearer credential |
| LoginPage.GoogleLoginAuthorizesLaterRequests | frontend/src/pages/Login.jsx:22-27 | after a successful Google login the page reloads and the next request carries the returned access token as its bearer credential |
| LoginPage.MissingAccessIsSentAsUndefined | frontend/src/pages/Login.jsx:48-52 | a success reply without `access` stores "undefined", which later goes out as `Bearer undefined` |
| LoginPage.SubmitErrorShown | frontend/src/pages/Login.jsx:54-56 | the form shows an error iff a failure response carried a non-empty `error` field |
| VerifyPage.VerifyEmail | frontend/src/pages/VerifyAcount.jsx:10-24 | GET `account/verifyEmail/<token>/`; navigation to `/login` iff the GET succeeds; loading ends false either way |
| VerifyPage.Render | frontend/src/pages/VerifyAcount.jsx:26-54 | "Verifying account..." exactly while loading |
| VerifyPage.CompletionTextRegardless | frontend/src/pages/VerifyAcount.jsx:15-20 | after a failure the page still reads "Verification complete. Redirecting..." and does not navigate |
| VerifyPage.TokenInPath | frontend/src/pages/VerifyAcount.jsx:13 | the token is the text between the fixed prefix and the trailing slash, even when it contains `/` |
| RegisterPage.PatternOfParts | frontend/src/pages/Register.jsx:149-152 | three non-empty whitespace-free parts joined as `a@b.c` match the email pattern |
| RegisterPage.MatchEmail | frontend/src/pages/Register.jsx:150 | a single scan returns true iff the string matches `^\S+@\S+\.\S+$` |
| RegisterPage.UsernameError | frontend/src/pages/Register.jsx:120-126 | the username passes iff it is non-empty and at least 2 UTF-16 units long |
| RegisterPage.EmailError | frontend/src/pages/Register.jsx:147-153 | the email passes iff it matches the pattern, which also rules out the empty string |
| RegisterPage.Password1Error | frontend/src/pages/Register.jsx:175-181 | the password passes iff it is non-empty and at least 8 units long |
| RegisterPage.Password2Error | frontend/src/pages/Register.jsx:224-228 | the confirmation passes iff it is non-empty and equals the password |
| RegisterPage.FieldErrors | frontend/src/pages/Register.jsx:120-228 | no field error iff all four rules hold; a non-empty mismatched confirmation reads "Passwords do not match" |
| RegisterPage.Put | frontend/src/pages/Register.jsx:131-135 | a failing field is recorded with its message and the other fields' messages are kept |
| RegisterPage.ErrorMessage | frontend/src/pages/Register.jsx:81-92 | an `email` key gives "Email is already in use"; otherwise `non_field_errors` gives its first entry; other data gives "Bad request, please contact support"; no data gives the unknown-error message |
| RegisterPage.Submit | frontend/src/pages/Register.jsx:64-104 | a request is sent iff the browser accepts the email input, the field rules pass and the reCAPTCHA value is truthy; when the browser blocks the submit nothing changes; when a field rule fails only the field errors change and the earlier message stays; a missing reCAPTCHA shows its message and sends nothing; the body is the form plus `recaptcha`; success navigates to `/login`; a failure shows the mapped message; loading ends false |
| RegisterPage.ShownInitial | frontend/src/pages/Register.jsx:10-20 | the page starts with no field errors and an empty message |
| RegisterPage.StaleMessageSurvivesFieldFailure | frontend/src/pages/Register.jsx:64-72 | after "Please complete the reCAPTCHA", a submit with an empty username keeps showing that message next to the username error and sends nothing |
| RegisterPage.StoppedSubmitIsForgotten | frontend/src/pages/Register.jsx:104 | a submit the browser or the field rules stop leaves store and message as they were, so the next valid submit behaves as if it had not happened |
| RegisterPage.AnyEmailErrorReadsAsInUse | frontend/src/pages/Register.jsx:83-84 | any body with an `email` key reads as "Email is already in use", whatever else it holds |
| RegisterPage.CheckEmailField | frontend/src/pages/Register.jsx:147-153 | the scanning check and the email rule agree on every input |
| CreateArticlePage.Initial | frontend/src/pages/CreateArticle.jsx:8-18 | the form starts with empty title, body and category, no tags and language "en"; no lists, no new tag, no error |
| CreateArticlePage.FetchData | frontend/src/pages/CreateArticle.jsx:20-36 | both lists load only when both requests succeed; any failure sets the load error and keeps the lists |
| CreateArticlePage.FetchDataIdempotent | frontend/src/pages/CreateArticle.jsx:20-36 | loading again with the same answers changes nothing |
| CreateArticlePage.FailedReloadKeepsLists | frontend/src/pages/CreateArticle.jsx:20-36 | a failed load after a successful one shows the error text and keeps the loaded lists |
| CreateArticlePage.InputChange | frontend/src/pages/CreateArticle.jsx:38-41 | the named field takes the value; every other field and the tag selection are kept |
| CreateArticlePage.Without | frontend/src/pages/CreateArticle.jsx:45 | every occurrence of the id is gone and every other id keeps its membership |
| CreateArticlePage.TagClick | frontend/src/pages/CreateArticle.jsx:43-48 | the clicked id is selected afterwards iff it was not selected before; other ids keep their membership |
| CreateArticlePage.TagClickTwice | frontend/src/pages/CreateArticle.jsx:43-48 | clicking an unselected tag twice restores the selection exactly |
| CreateArticlePage.TagClickKeepsDistinct | frontend/src/pages/CreateArticle.jsx:43-48 | a selection without repeats stays without repeats |
| CreateArticlePage.AddNewTagAsWritten | frontend/src/pages/CreateArticle.jsx:50-62 | a trimmed, non-empty, unlisted name is appended with the first clock read as id while the second clock read is selected, and the input clears; otherwise nothing changes |
| CreateArticlePage.ClockTickLosesSelection | frontend/src/pages/CreateArticle.jsx:57-59 | when the two clock reads differ, the added tag is not selected and the selection holds an id no listed tag has |
| CreateArticlePage.ClockTickExample | frontend/src/pages/CreateArticle.jsx:57-59 | with reads 1000 and 1001 the new tag has id 1000 and the selection holds 1001 |
| CreateArticlePage.AddNewTag | frontend/src/pages/CreateArticle.jsx:50-62 | a trimmed, non-empty, unlisted name is appended and selected under one id, and the input clears; otherwise nothing changes |
| CreateArticlePage.AddNewTagSelects | frontend/src/pages/CreateArticle.jsx:55-60 | the added tag carries the trimmed name, is selected, and listed names stay unique |
| CreateArticlePage.AddNewTagKeepsNamesUnique | frontend/src/pages/CreateArticle.jsx:51-54 | adding never introduces a duplicate tag name |
| CreateArticlePage.Submit | frontend/src/pages/CreateArticle.jsx:64-83 | a request is sent iff the title, body and category, the three `required` controls of the form (which has no `noValidate`, CreateArticle.jsx:92, 106, 123, 141), are non-empty; a stopped submit changes nothing and does not navigate; a sent one posts one content `{language, title, body}` with the category and the selected tags; success navigates to `/article/<id>`; failure sets the error that replaces the form |
| CreateArticlePage.EmptyFormIsNotPosted | frontend/src/pages/CreateArticle.jsx:92-150 | the freshly opened page cannot be posted: the browser stops the submit and the form stays |
| CreateArticlePage.FailedSubmitShowsError | frontend/src/pages/CreateArticle.jsx:79-87 | a posted form that fails is replaced by "Failed to create article. Please try again."; a stopped one still shows what it showed |
| CreateArticlePage.SubmitNavigatesToCreated | frontend/src/pages/CreateArticle.jsx:78 | after a successful post the route's suffix reads back as the created article's id, and a page that showed the form still shows it |
| CreateArticlePage.ArticleRouteInjective | frontend/src/pages/CreateArticle.jsx:78 | distinct article ids give distinct routes |
| CreateArticlePage.Render | frontend/src/pages/CreateArticle.jsx:85-87 | the form shows iff there is no error; otherwise the error text alone |
| ArticlePage.Initial | frontend/src/pages/Article.jsx:7-10 | no article, loading, no comments and an empty input |
| ArticlePage.FetchArticle | frontend/src/pages/Article.jsx:13-28 | on success the article is kept and the comments are its `comments` or empty; a failure keeps the page; loading ends false either way |
| ArticlePage.SubmitComment | frontend/src/pages/Article.jsx:30-45 | a blank comment sends nothing; a successful post appends the server's comment at the end and clears the input; a failure changes nothing |
| ArticlePage.RemoveId | frontend/src/pages/Article.jsx:50 | exactly the comments with another id remain |
| ArticlePage.RemoveIdAppend | frontend/src/pages/Article.jsx:50 | filtering distributes over concatenation, so kept comments stay in order |
| ArticlePage.RemoveIdAbsent | frontend/src/pages/Article.jsx:50 | a list without that id is left exactly as it was |
| ArticlePage.RemoveIdIdempotent | frontend/src/pages/Article.jsx:50 | filtering twice equals filtering once |
| ArticlePage.DeleteComment | frontend/src/pages/Article.jsx:47-54 | a successful delete removes exactly the comments with that id, order kept; a failure changes nothing |
| ArticlePage.EmailAuthorsCannotDelete | frontend/src/pages/Article.jsx:150-152 | a comment whose author contains `@` never offers deletion |
| ArticlePage.TagNames | frontend/src/pages/Article.jsx:99-107 | one label per tag, its name, in order |
| ArticlePage.Render | frontend/src/pages/Article.jsx:56-93 | "Loading..." exactly while loading, then "Article not found" exactly when there is no article, then the fallbacks "Untitled", "Unknown Author", "Uncategorized", "No content available" and no tags |
| ArticlePage.FetchThenRender | frontend/src/pages/Article.jsx:13-62 | after the fetch the page shows "Article not found" iff the fetch failed, and the article iff it succeeded |
| ArticlePage.PostThenDelete | frontend/src/pages/Article.jsx:39-50 | posting a comment and then deleting it restores the list when no earlier comment shares its id |
| ArticleCard.FirstContent | frontend/src/components/article/ArticleCard.jsx:8 | the first translation when there is one, else a record with no fields |
| ArticleCard.TagLabel | frontend/src/components/article/ArticleCard.jsx:38 | the table's non-empty name for the id, else `Tag <id>` |
| ArticleCard.TagLabels | frontend/src/components/article/ArticleCard.jsx:32-40 | one label per tag id, in order |
| ArticleCard.CategoryLabel | frontend/src/components/article/ArticleCard.jsx:48 | the table's non-empty name for the category, else "Uncategorized" |
| ArticleCard.Render | frontend/src/components/article/ArticleCard.jsx:7-55 | link `/article/<id>/`; title, body and author from the record with fallbacks "Untitled", "No content available", "Unknown author"; the comment count or 0; no shown field is ever empty |
| ArticleCard.LinkNamesArticle | frontend/src/components/article/ArticleCard.jsx:15 | the link's segment between `/article/` and the trailing slash reads back as the article id |
| ArticleCard.EmptyRecordFallbacks | frontend/src/components/article/ArticleCard.jsx:8-48 | a record with no fields shows every fallback, no tags and 0 comments |
| ArticleCard.UnknownTagLabelsDistinct | frontend/src/components/article/ArticleCard.jsx:38 | distinct unknown tag ids show distinct labels |
| Accounts.PutUserKeepsWf | backend/account/models.py:7-17 | storing a row under its own email with a free username, a declared role and never verified-but-inactive keeps every table invariant: unique emails and usernames, declared roles, reset tokens owned by stored users, at most one each |
| Accounts.CharChecks | backend/account/serializers.py:75-88 | a cleaned value passes a field's own checks iff it is within the maximum length, at least the minimum, and free of NUL |
| Accounts.CharInput | backend/account/serializers.py:43-44 | a missing field is "required", one that trims to nothing is "blank", otherwise the trimmed text is the value |
| Accounts.CharField | backend/account/serializers.py:75-88 | a field is accepted iff it is present, non-blank after trimming and within its bounds; the accepted value is the trimmed text |
| Accounts.EmailInput | backend/account/serializers.py:42 | an email field is accepted iff the character checks pass and the address is valid |
| Accounts.Put | backend/account/views.py:47 | a rejected field adds its messages under its name and keeps the other entries; an accepted one changes nothing |
| Accounts.UsernameField | backend/account/models.py:7 | the username is accepted iff it is present, valid, not held by any user and at most 150 characters |
| Accounts.EmailField | backend/account/models.py:14 | the email is accepted iff it is present, not stored yet, at most 254 characters and a valid address |
| Accounts.RoleField | backend/account/models.py:8-15 | a role may be left out; a given role is accepted iff it is admin, blogger or guest |
| Accounts.RegistrationFields | backend/account/serializers.py:10-17 | the field stage passes iff every field is accepted, and then hands on the cleaned values; otherwise at least one field error is reported |
| Accounts.Validate | backend/account/serializers.py:19-30 | the checks run in order (email in use, passwords differ, password shorter than 8), the first failure wins, and a pass returns the values unchanged |
| Accounts.ValidateEmailCheckUnreachable | backend/account/serializers.py:20-21 | after the field stage passed, the email-in-use check cannot fire and `validate` decides on the passwords alone |
| Accounts.NormalizeEmail | backend/account/serializers.py:36 | the part after the last `@` is lower-cased; the rest and the length are kept |
| Accounts.NewUser | backend/account/serializers.py:32-39 | a created user has password1 as its password, no password2, the given role, and is inactive and unverified with its verification token |
| Accounts.CreateAsWritten | backend/account/serializers.py:32-39 | a request naming a role fails, since the role is passed twice to `create_user`; otherwise the user is stored with the default role under the normalised email |
| Accounts.Create | backend/account/serializers.py:32-39 | the user is stored with the chosen role, or blogger by default, under the normalised email, unless that key is taken |
| Accounts.RegisterWith | backend/account/views.py:31-47 | field errors, then `validate` errors, are answered 400 with no user created; 201 only after both passed, with exactly the new row added |
| Accounts.RegisterAsWritten | backend/account/views.py:31-47 | a registration naming a role never stores a user |
| Accounts.Register | backend/account/views.py:31-47 | a 201 stores a new, inactive user under a previously absent key, with the chosen or default role and its verification token |
| Accounts.RegisterAgreesWithoutRole | backend/account/serializers.py:35 | without a role in the form, the code as written and the corrected code answer alike |
| Accounts.ExplicitRoleFails | backend/account/serializers.py:35-36 | every otherwise valid form naming a role fails as written with nothing stored, and is stored with that role once corrected |
| Accounts.CharFieldIdempotent | backend/account/serializers.py:43-44 | cleaning an accepted value again accepts it unchanged |
| Accounts.RegisterKeepsWf | backend/account/views.py:31-47 | registration keeps every table invariant |
| Accounts.VerifyEmail | backend/account/views.py:50-61 | the token's one unverified holder becomes verified and active (200); an already-verified holder gets 400 "Email already verified."; an unknown token gets 400 "Invalid token."; nothing changes unless 200 |
| Accounts.VerifyTwiceFails | backend/account/views.py:53-59 | a second verification with the same token is refused |
| Accounts.VerifyKeepsWf | backend/account/views.py:50-61 | verification keeps every table invariant |
| Accounts.LoginFields | backend/account/serializers.py:41-43 | the login form's two fields pass iff the email and the password are accepted |
| Accounts.Login | backend/account/serializers.py:45-63 | no account, wrong password, inactive and unverified are refused in that order, each with its single `error` message; tokens are issued iff the password matches an active, verified account; nothing is stored |
| Accounts.RegisterVerifyLogin | backend/account/views.py:31-80 | a freshly registered account cannot log in; after its link is used the registration password logs in |
| Accounts.RegisterStoresUnder | backend/account/serializers.py:36 | a successful registration stores exactly the new user under its email |
| Accounts.HoldersAfterInsert | backend/account/models.py:17 | a new row with a token no stored user holds is that token's only holder |
| Accounts.VerifySingleHolder | backend/account/views.py:52-57 | with a single unverified holder, verification flips exactly that user's two flags |
| Accounts.LoginDecides | backend/account/serializers.py:54-63 | with a clean form, an inactive account is refused and an active, verified one gets tokens |
| Accounts.RegisteredCredentialsPassLoginForm | backend/account/serializers.py:41-43 | the email and password a registration accepted pass the login form unchanged |
| Accounts.UserInfoAsWritten | backend/account/views.py:97-105 | an unauthenticated request gets 401; an authenticated user gets their record only with role "userPortfolio", otherwise 403 "Access denied" |
| Accounts.NoUserPassesUserInfo | backend/account/views.py:103 | no stored user can ever get 200, since "userPortfolio" is not a declared role |
| Accounts.UserInfo | backend/account/views.py:97-105 | every authenticated user gets their own record, and only they |
| Accounts.DropOwner | backend/account/views.py:116 | exactly the tokens of other users remain, unchanged |
| Accounts.ResetEmailField | backend/account/serializers.py:67-73 | the reset form passes iff the address is accepted and belongs to a user |
| Accounts.RequestReset | backend/account/views.py:108-139 | an unknown address is a field error with nothing changed; otherwise the user's tokens are deleted and one new token, expiring an hour from now, is stored |
| Accounts.RequestResetLeavesOneToken | backend/account/views.py:116-124 | after a request the user holds exactly one token, the new one |
| Accounts.RequestResetKeepsWf | backend/account/views.py:108-139 | a reset request keeps every table invariant |
| Accounts.ReplaceResetKeepsWf | backend/account/models.py:25-27 | replacing a stored user's tokens by one keeps the invariants |
| Accounts.ConfirmReset | backend/account/views.py:142-160 | a password outside 8..68 characters is a field error; an unknown token is "invalid"; an expired one is "expired" and kept; otherwise the owner's password is set and the token deleted; nothing changes unless 200 |
| Accounts.ConfirmResetKeepsWf | backend/account/views.py:142-160 | confirming a reset keeps every table invariant |
| Accounts.ResetLinkLifecycle | backend/account/models.py:31-32 | a reset link works up to and including its expiry instant and only once; after expiry it is refused and stays stored |
| Accounts.ChangePassword | backend/account/views.py:164-173 | only an authenticated user with well-formed fields and the right old password gets 200, and then only the password changes; a wrong old password gets "Incorrect old password." |
| Accounts.ChangePasswordReplaces | backend/account/views.py:168-169 | after a change the new password matches and the old one does not |
| Accounts.ChangeUsername | backend/account/views.py:179-191 | 200 iff authenticated, the fields are well formed, the password is right and no user holds the name; then only the username changes; a held name gets "This username is already taken." |
| Accounts.OwnNameIsTaken | backend/account/views.py:185-186 | asking for one's own current name is refused |
| Accounts.ChangesKeepWf | backend/account/views.py:164-191 | password and username changes keep every table invariant |
| Accounts.BareUser | backend/account/views.py:206 | the row `get_or_create` inserts has no username, no usable password, the default role, and is active and unverified |
| Accounts.GoogleLogin | backend/account/views.py:195-221 | a refused token gets 400; a known email gets tokens with nothing changed; a new email is stored active and verified under the Google name |
| Accounts.GoogleLoginIdempotent | backend/account/views.py:206-211 | a second sign-in with the same claims changes nothing more |
| Accounts.GoogleNameClash | backend/account/views.py:206-211 | a Google name another user holds fails the sign-in and leaves a bare row that the next sign-in logs into |
| Accounts.GoogleLoginKeepsWf | backend/account/views.py:195-221 | Google sign-in keeps every table invariant |
| Articles.FilterStep | backend/article/models.py:17-46 | an order-keeping filter of a duplicate-free table stays duplicate-free |
| Articles.NoDuplicatesConcat | backend/article/models.py:17-46 | appending new, pairwise distinct rows keeps a table duplicate-free |
| Articles.CategoryName | backend/article/models.py:4-9 | the name of the category with that id when there is one, and none only when no category has it |
| Articles.TagName | backend/article/models.py:11-15 | the name of the tag with that id when there is one, and none only when no tag has it |
| Articles.FindArticle | backend/article/views.py:47 | the stored article with that id, or none exactly when no article has it |
| Articles.FindComment | backend/article/views.py:84 | the stored comment with that id, or none exactly when no comment has it |
| Articles.ContentsOf | backend/article/models.py:28 | an article's contents are exactly the stored contents pointing at it |
| Articles.CommentsOf | backend/article/models.py:40 | an article's comments are exactly the stored comments pointing at it |
| Articles.Empty | backend/article/models.py:17-46 | the empty database satisfies every relational invariant |
| Articles.AtMostOneContentPerLanguage | backend/article/models.py:33-34 | two stored contents of one article in one language are the same row |
| Articles.ArticleTextDetermines | backend/article/models.py:24-25 | equal forms "Article {id} by {username}" mean the same id and the same username |
| Articles.ContentTextDetermines | backend/article/models.py:36-37 | when neither language contains "(", equal "{title} ({language})" texts have equal titles and languages |
| Articles.ArticlesApart | backend/article/models.py:18 | exactly the articles outside the deleted set remain, duplicate-free |
| Articles.ContentsApart | backend/article/models.py:28 | exactly the contents of surviving articles remain |
| Articles.CommentsApart | backend/article/models.py:40-41 | exactly the comments on surviving articles by surviving users remain |
| Articles.Cascade | backend/article/models.py:18-41 | deleting articles removes their contents and comments, deleting users removes their comments, and categories and tags stay |
| Articles.CascadeKeepsWf | backend/article/models.py:18-41 | a cascade keeps every relational invariant |
| Articles.DeleteArticle | backend/article/models.py:28-40 | deleting an article removes it, its contents and its comments and nothing else, keeping the invariants |
| Articles.DeleteUser | backend/article/models.py:18-41 | deleting a user removes their articles, those articles' contents and comments, and every comment the user posted, keeping the invariants |
| Articles.DeleteUserKeepsOthers | backend/article/models.py:18-41 | every other author's article, its contents and other users' comments on it survive |
| Articles.Uncategorize | backend/article/models.py:19 | an article that had the deleted category has none; any other article is unchanged |
| Articles.CategoriesApart | backend/article/models.py:4-9 | exactly the other categories remain |
| Articles.DeleteCategory | backend/article/models.py:19 | deleting a category keeps every article in place, clears the category of those that had it and changes nothing else |
| Articles.DeleteCategoryKeepsWf | backend/article/models.py:19 | deleting a category keeps every relational invariant |
| Articles.DeleteCategoryRows | backend/article/models.py:19 | every remaining article is a stored article with its category cleared or kept |
| Articles.DeleteCategoryKeyed | backend/article/models.py:19 | deleting a category keeps the primary keys |
| Articles.DeleteCategoryLinked | backend/article/models.py:19 | deleting a category leaves no article pointing at a missing category or tag |
| Articles.DeleteCategoryOwned | backend/article/models.py:19 | deleting a category leaves every content and comment with its article |
| Articles.IdsApart | backend/article/models.py:20 | exactly the other tag links remain, duplicate-free |
| Articles.TagsApart | backend/article/models.py:11-15 | exactly the other tags remain |
| Articles.DeleteTag | backend/article/models.py:20 | deleting a tag removes its links from every article and keeps every article |
| Articles.DeleteTagKeepsWf | backend/article/models.py:20 | deleting a tag keeps every relational invariant |
| Articles.DeleteTagRows | backend/article/models.py:20 | every remaining article is a stored article with the tag unlinked |
| Articles.DeleteTagKeyed | backend/article/models.py:20 | deleting a tag keeps the primary keys |
| Articles.DeleteTagLinked | backend/article/models.py:20 | deleting a tag leaves no article linking a missing tag |
| Articles.DeleteTagOwned | backend/article/models.py:20 | deleting a tag leaves every content and comment with its article |
| Writes.NextId | backend/article/models.py:17-46 | a new row's auto-increment id is positive and above every id already in the table |
| Writes.AppendKeyed | backend/article/models.py:17-46 | appending rows with new, pairwise distinct ids keeps the table's primary key |
| Writes.LinkedGrow | backend/article/models.py:19-20 | an article's category and tag references stay valid while those tables only grow |
| Writes.LinksGrow | backend/article/models.py:19-20 | every article's references stay valid while those tables only grow |
| Writes.AddCategory | backend/article/serializers.py:28 | inserting a category appends one row under an id no category had and changes no other table |
| Writes.AddCategoryFinds | backend/article/models.py:4-9 | the new category is found under its id with the given name |
| Writes.AddCategoryKeepsWf | backend/article/models.py:4-9 | inserting a category with a name of at most 100 characters keeps every relational invariant |
| Writes.AddTags | backend/article/serializers.py:29 | inserting tags appends one row per name, in order, under pairwise distinct ids no tag had |
| Writes.AddTagsFinds | backend/article/models.py:11-15 | each new tag is found under its id with its name |
| Writes.AddTagsKeepsWf | backend/article/models.py:11-15 | inserting tags whose names have at most 50 characters keeps every relational invariant |
| Writes.InsertArticle | backend/article/views.py:56 | inserting an article appends one row by that author, with no category and no tags, under an id no article had |
| Writes.InsertArticleKeepsWf | backend/article/models.py:17-25 | inserting an article keeps every relational invariant |
| Writes.PutArticle | backend/article/views.py:65 | saving an article replaces the row with its id, in place, and changes no other table |
| Writes.PutArticleRows | backend/article/views.py:65 | after the save the table holds the new row and exactly the other articles |
| Writes.PutArticleKeyed | backend/article/models.py:17-25 | saving an article keeps the primary keys |
| Writes.PutArticleKeepsWf | backend/article/models.py:17-25 | saving a stored article whose category and tags exist keeps every relational invariant |
| Writes.ContentRows | backend/article/serializers.py:30 | the new content rows carry the entries in order, under consecutive ids, all pointing at the article |
| Writes.ReplaceContents | backend/article/serializers.py:30 | replacing an article's contents keeps every other article's contents and changes no other table |
| Writes.ContentsOfConcat | backend/article/models.py:28 | an article's contents in a concatenation are its contents in each part, in order |
| Writes.ContentsOfAll | backend/article/models.py:28 | rows that all point at the article are all its contents |
| Writes.ContentsOfNone | backend/article/models.py:28 | rows none of which point at the article hold none of its contents |
| Writes.ReplaceContentsStores | backend/article/serializers.py:30 | afterwards the article's contents are exactly the entries, in order |
| Writes.ReplaceContentsKeyed | backend/article/models.py:27-37 | replacing contents keeps the primary keys |
| Writes.ReplaceContentsOneLanguage | backend/article/models.py:33-34 | entries with distinct languages keep one content per article and language |
| Writes.ReplaceContentsKeepsWf | backend/article/models.py:27-37 | replacing a stored article's contents with bounded entries in distinct languages keeps every relational invariant |
| Writes.AddComment | backend/article/models.py:39-46 | inserting a comment appends one row under an id no comment had and changes no other table |
| Writes.AddCommentKeepsWf | backend/article/models.py:39-46 | inserting a comment on a stored article keeps every relational invariant |
| Writes.PutComment | backend/article/views.py:102 | saving a comment replaces the row with its id, in place, and changes no other table |
| Writes.PutCommentRows | backend/article/views.py:102 | after the save the table holds the new row and exactly the other comments |
| Writes.PutCommentKeyed | backend/article/models.py:39-46 | saving a comment keeps the primary keys |
| Writes.PutCommentKeepsWf | backend/article/models.py:39-46 | saving a comment on a stored article keeps every relational invariant |
| Writes.CommentsWithout | backend/article/views.py:111 | exactly the comments with another id remain, repeat-free when the input was |
| Writes.RemoveComment | backend/article/views.py:111 | deleting a comment removes exactly the row with that id, changes no other table and keeps every relational invariant |
| ArticleSearch.CountTagsPositive | backend/article/views.py:121 | an article has a joined row for a tag name exactly when one of its linked tags bears that name |
| ArticleSearch.CountContentsPositive | backend/article/views.py:127-129 | an article has a joined row for a keyword exactly when one of its contents mentions it |
| ArticleSearch.MatchesMeaning | backend/article/views.py:121-129 | across both to-many relations, an article contributes joined rows exactly when it is related |
| ArticleSearch.RepeatCount | backend/article/views.py:121 | a run of copies of one row holds that row its length times and no other row |
| ArticleSearch.JoinRows | backend/article/views.py:121 | a filter across a to-many relation keeps exactly the rows with at least one matching related row |
| ArticleSearch.JoinKeepsRelated | backend/article/views.py:121-129 | a join keeps exactly the related rows of its input |
| ArticleSearch.JoinMultiplicity | backend/article/views.py:121 | an article listed m times with k matching related rows is listed m times k after the join |
| ArticleSearch.KeepCategory | backend/article/views.py:124 | the category filter keeps each row in the named category with its multiplicity and drops every other row |
| ArticleSearch.DedupFrom | backend/article/views.py:130 | folding keeps each row not yet seen, once, and nothing else |
| ArticleSearch.Dedup | backend/article/views.py:130 | `.distinct()` keeps the same set of rows with no repeats |
| ArticleSearch.DedupSkipsSeen | backend/article/views.py:130 | a run of a row already seen is dropped whole |
| ArticleSearch.DedupJoinDistinct | backend/article/views.py:127-130 | joining a repeat-free list whose every row matches and then folding gives that list back |
| ArticleSearch.Search | backend/article/views.py:117-133 | the result lists exactly the articles passing every non-empty filter (tag name, category name, keyword in a title or a body), without repeats when a keyword is given, and the whole table when no filter is given |
| ArticleSearch.SearchByTagRepeats | backend/article/views.py:120-121 | without a keyword an article comes back once per linked tag bearing the name |
| ArticleSearch.SearchByTagListsTwice | backend/article/views.py:120-130 | an article with two same-named tags is listed twice by a tag search and once when a keyword is added |
| ArticleSearch.TwoTagsWf | backend/article/models.py:11-20 | the two-tag database of the example satisfies the relational invariants |
| ArticleSearch.TwoTagsJoin | backend/article/views.py:121 | in that database the tag join lists the article twice |
| ArticleSearch.DedupTwice | backend/article/views.py:130 | folding a row listed twice leaves it once |
| ArticleSearch.JoinTwice | backend/article/views.py:121-129 | the join of a row listed twice is its run written twice |
| ArticleSearch.SearchByKeywordFindsEachOnce | backend/article/views.py:126-130 | every article mentioning the keyword comes back exactly once |
| ArticleSearch.MultisetOfDistinct | backend/article/views.py:130 | each row of a repeat-free list occurs in it exactly once |
| ArticleSearch.FilterKeywordAsWritten | backend/article/filters.py:13-14 | the list filter keeps exactly the articles with a content whose title contains the value |
| ArticleSearch.FilterKeywordAsWrittenRepeats | backend/article/filters.py:13-14 | an article with two matching titles is listed twice, four times after a second application, and once by the corrected filter |
| ArticleSearch.TwoContentsWf | backend/article/models.py:27-37 | the two-language database of the example satisfies the relational invariants |
| ArticleSearch.TwoContentsCount | backend/article/filters.py:14 | in that database two contents match the value |
| ArticleSearch.FilterKeyword | backend/article/filters.py:13-14 | the corrected filter keeps exactly the same articles, each once |
| ArticleSearch.FilterKeywordIdempotent | backend/article/filters.py:13-14 | applying the corrected filter twice gives what applying it once gives |
| ArticleSearch.BodyOnlyMatchSplitsSearchAndFilter | backend/article/filters.py:14 | an article whose keyword sits only in a body is found by the search endpoint and not by the list filter |
| Managers.View | backend/article/serializers.py:26-35 | an article is rendered with exactly its stored contents and comments |
| Managers.StringOkBounded | backend/article/models.py:5-30 | an accepted bounded string, once trimmed, fits its column |
| Managers.Flagged | backend/article/views.py:58 | a 400 names exactly the nested fields that failed |
| Managers.ArticleErrors | backend/article/serializers.py:28-30 | category, tags and contents each fail when missing from a full payload, malformed, or carrying a rejected string |
| Managers.ValidPayloadIsNested | backend/article/serializers.py:28-30 | a payload that passes full validation carries all three nested values |
| Managers.GetArticle | backend/article/views.py:45-51 | the stored article with its contents and comments when the id exists, 404 "Article not found." exactly when it does not |
| Managers.CreateArticleAsWritten | backend/article/views.py:53-58 | an invalid payload is 400 naming the failing fields; a valid one ends in a server error; the database never changes |
| Managers.CreateArticleAsWrittenNeverCreates | backend/article/views.py:53-58 | no payload creates an article: the answer is always 400 or 500 |
| Managers.UpdateArticleAsWritten | backend/article/views.py:60-69 | 404 for a missing id, 400 for an invalid payload, a server error exactly when a valid payload carries a nested value, and the stored article otherwise; the database never changes |
| Managers.UpdateArticleAsWrittenChangesNothing | backend/article/views.py:60-69 | a 200 answer shows the stored article unchanged and only for a payload without nested values |
| Managers.DeleteArticleById | backend/article/views.py:71-77 | 404 for a missing id; otherwise 204, and exactly that article, its contents and its comments are gone, categories and tags stay, and the invariants hold |
| Managers.DeleteArticleTwice | backend/article/views.py:71-77 | a second delete of the same id answers 404 |
| Managers.GetAfterDelete | backend/article/views.py:45-77 | after a delete, a get of that id is 404 and a get of any other stored article still succeeds |
| Managers.TagNamesIn | backend/article/serializers.py:29 | the cleaned tag names, one per payload tag, in order |
| Managers.Entries | backend/article/serializers.py:30 | the cleaned translations, one per payload content, in order |
| Managers.WriteErrors | backend/article/models.py:33-34 | the corrected validation rejects what the serializer rejects, and also two contents in one language |
| Managers.ValidIsStorable | backend/article/models.py:5-34 | whatever passes the corrected validation fits every column and keeps one content per language |
| Managers.WriteCategory | backend/article/serializers.py:28 | a given category is a new row the article now points at; only the category link and table change |
| Managers.WriteTags | backend/article/serializers.py:29 | given tags are new rows the article now links; only the tag links and table change |
| Managers.WriteContents | backend/article/serializers.py:30 | given contents replace the article's contents; no other table changes |
| Managers.WriteContentsKeepsWf | backend/article/models.py:27-37 | writing bounded contents in distinct languages keeps every relational invariant |
| Managers.WriteNested | backend/article/serializers.py:28-30 | the saved article keeps its id and author, and its category and tags when those are not given |
| Managers.WriteCategoryKeepsWf | backend/article/models.py:4-19 | writing a category keeps the invariants and the article's links valid |
| Managers.WriteTagsKeepsWf | backend/article/models.py:11-20 | writing tags keeps the invariants and the article's links valid |
| Managers.WriteNestedKeepsWf | backend/article/models.py:17-37 | a nested write keeps every relational invariant and stores the article |
| Managers.WriteNestedStores | backend/article/serializers.py:28-30 | the article then shows the given category's name, the given tag names in order and the given contents in order |
| Managers.CreateArticle | backend/article/views.py:53-58 | 400 naming the failing fields exactly when the payload is rejected, changing nothing; otherwise 201 with a new article by the user and no comment touched |
| Managers.CreateArticleStores | backend/article/views.py:53-58 | a created article keeps the invariants, a get by its id answers the same view, and it shows the given category, tags and contents |
| Managers.ClientPayloadRejected | frontend/src/pages/CreateArticle.jsx:67-77 | the payload the client posts (category as the select's string, tags as numbers) is refused by both the manager as written and the nested-write create: always on the category, on the tags iff one is selected, with nothing stored |
| Managers.CategoryRef | frontend/src/pages/CreateArticle.jsx:144-148 | a category reference is accepted exactly when it is a non-empty digit string naming a stored category, and then it is that category's id |
| Managers.CategoryRefOfOption | frontend/src/pages/CreateArticle.jsx:146 | the value the select offers for a stored category reads back as that category |
| Managers.Firsts | backend/article/views.py:53-58 | the linked tag ids are exactly the given ones, each once |
| Managers.ClientErrors | backend/article/views.py:55-58 | a 400 names the category iff it is no stored category, the tags iff one names no stored tag, the contents iff a translation is refused or two share a language |
| Managers.CreateArticleByIds | backend/article/views.py:53-58 | 400 naming exactly the refused fields, changing nothing; otherwise 201 with a new article by the user, linked to the named category and to exactly the named tags, each once, with categories, tags and comments untouched |
| Managers.ClientContentsStorable | backend/article/models.py:28-37 | accepted translations fit their columns and keep one content per language |
| Managers.CreateArticleByIdsStores | backend/article/views.py:53-58 | an accepted client payload keeps the invariants, a get by the new id answers the same view, its links point at stored rows, and its contents are the given ones in order |
| Managers.UpdateArticle | backend/article/views.py:60-69 | 404 for a missing id and 400 for a rejected payload, both changing nothing; otherwise 200 with the article keeping its id, author, and every nested value not given |
| Managers.UpdateArticleKeepsOthers | backend/article/views.py:60-69 | an update keeps the invariants, a later get answers the same view, and every other article row is kept |
| Managers.UpdateKeepsRow | backend/article/views.py:65 | a nested write leaves any other article row in place |
| Managers.UpdateAgreesWithoutNested | backend/article/views.py:60-69 | for a payload without nested values the corrected update answers exactly as the one written |
| Managers.GetComment | backend/article/views.py:82-88 | the stored comment when the id exists, 404 "Comment not found." exactly when it does not |
| Managers.CreateCommentAsWritten | backend/article/views.py:90-95 | a missing or blank text is 400 on the content field; any other payload is a server error; the database never changes |
| Managers.CreateCommentAsWrittenNeverCreates | backend/article/views.py:90-95 | no payload creates a comment: the answer is always 400 or 500 |
| Managers.CommentErrors | backend/article/models.py:39-43 | a comment payload fails on the text when it is missing or blank and on the article when it is missing or unknown |
| Managers.CreateComment | backend/article/views.py:90-95 | 400 naming the failing fields exactly when the payload is rejected, changing nothing; otherwise 201 with one new comment by the user on the named article, under a fresh id |
| Managers.CreateCommentStores | backend/article/views.py:82-95 | a created comment keeps the invariants, is found by a get and shows on its article |
| Managers.UpdateComment | backend/article/views.py:97-106 | 404 for a missing id; 400 on the content field exactly when the text is rejected; otherwise only the text changes, when given |
| Managers.UpdateCommentStores | backend/article/views.py:82-106 | an update keeps the invariants, a later get answers the updated comment, and every other comment is kept |
| Managers.UpdateCommentIdempotent | backend/article/views.py:97-106 | sending the same update twice leaves what sending it once leaves |
| Managers.DeleteCommentById | backend/article/views.py:108-114 | 404 for a missing id; otherwise 204 and exactly that comment is gone, nothing else changes, and the invariants hold |
| Managers.GetCommentAfterDelete | backend/article/views.py:82-114 | after a delete, a get and a second delete of that id both answer 404 |

## Left out

- Network transport, timeouts, `withCredentials` cookies and promise scheduling: a request's answer is a parameter, and handlers that the client runs concurrently (`Promise.all`) are modelled as one combined step.
- JSX markup, CSS classes, the reCAPTCHA script injection, `window.location.reload`, React re-render timing and date and locale formatting: they are presentation, not state.
- Password hashing and checking, JWT minting and blacklisting, `send_mail`, `uuid4`, `timezone.now` and Google's `verify_oauth2_token`: foreign calls, passed in as parameters or left abstract. A stored password is compared as given.
- The logout endpoint (backend/account/views.py:82-95): it only blacklists a refresh token in the JWT library, which is not part of this model.
- Django's email and username validators and NFKC username normalisation: the validators are oracle parameters, and normalisation is taken as the identity.
- Text.Lower: folds ASCII letters only, so `icontains` and email-domain lower-casing are modelled for ASCII text.
- Serializer error bodies of the article app are modelled as the set of failing top-level fields, not the nested message structure.
- JSON `null` for a top-level string field is treated as a missing field.
- `ATOMIC_REQUESTS` and transaction rollback: every modelled write either completes or leaves the database unchanged.
- `created_at` and `updated_at` timestamps, and the ordering of querysets: a table is a sequence in insertion order.
- Auto-increment ids are modelled as one more than the largest id in use (Writes.NextId). The database's sequence never reuses a deleted id; the model only promises a fresh one.
- The generic `ModelViewSet`s (backend/article/views.py:11-41) and the django-filter `category` and `tags` filters (backend/article/filters.py:5-11): their behaviour is the framework's, not this repository's. Only `filter_keyword` is modelled.
- backend/article/urls.py: the routing is not modelled. Lines 9-10 import `ArticleManagerViewSet` and `CommentManagerViewSet`, which views.py does not define. It defines `ArticleManager` (views.py:43) and `CommentManager` (views.py:79) as plain classes with no `as_view`, so that import fails as written. The model calls the manager operations directly.
- LoginPage.HandleSubmit: starts where the submit handler runs. The browser's own checks on the `type="email" required` and `required` password inputs (Login.jsx:84-87, 105) can stop the submit first; the model does not say when.
- RegisterPage.Submit: the browser's valid-e-mail check on the `type="email"` input (Register.jsx:154; the form has no `noValidate`) is the parameter `nativeEmailOk`. The check's grammar from the HTML Standard is not implemented, so the model does not decide which emails, such as `a@b.c@d.e`, it blocks.
- RouteGuard.Mount: React StrictMode's second mount in development, which would double the probes, is not modelled.
- The `__str__` forms of `Category`, `Tag` and `Comment` and of the account models are not used by any modelled operation. Only the article and content forms are (Articles.ArticleTextDetermines, Articles.ContentTextDetermines).
- Managers.UpdateArticle: a partial update whose nested content leaves out a string stores it as empty. This follows the corrected write and is not something the code as written can reach.
- Managers.CreateArticleStores: states the number of linked tags rather than their names; the names are stated by Managers.WriteNestedStores.
- Managers.CreateArticle and Managers.UpdateArticle: they write nested values in the shape the serializer declares (a category object and tag objects by name). No page of the client uses that shape. The client's create is served by Managers.CreateArticleByIds; the client never updates an article.
- Managers.CategoryRef: accepts only plain digit strings. Other spellings that Python's `int` reads (surrounding spaces, a sign, underscores) are refused, though the select never produces them.

## Findings

| source | as written | input that shows it | evidently intended | confidence | as-written member | corrected member |
|---|---|---|---|---|---|---|
| frontend/src/pages/CreateArticle.jsx:57-59 | the new tag's id and the id added to the selection are two separate `Date.now()` calls | the clock ticks between the two calls (`now1 = 1`, `now2 = 2`) | one id, used for both | not executed | CreateArticlePage.AddNewTagAsWritten, CreateArticlePage.ClockTickLosesSelection | CreateArticlePage.AddNewTag, CreateArticlePage.AddNewTagSelects |
| backend/account/views.py:103 | the identity endpoint admits only role `userPortfolio`, which is not one of the declared roles | any authenticated user, e.g. a verified `blogger` | every authenticated user reads their own record | not executed | Accounts.UserInfoAsWritten, Accounts.NoUserPassesUserInfo | Accounts.UserInfo |
| backend/account/serializers.py:35-36 | `role` is passed to `create_user` both by keyword and inside `**validated_data` | a valid registration form with `role = "guest"` | the chosen role is stored | not executed | Accounts.RegisterAsWritten, Accounts.ExplicitRoleFails | Accounts.Register, Accounts.ExplicitRoleFails |
| backend/article/filters.py:13-14 | the keyword filter joins contents with no `.distinct()` | an article with matching titles in two languages | each article listed once | not executed | ArticleSearch.FilterKeywordAsWritten, ArticleSearch.FilterKeywordAsWrittenRepeats | ArticleSearch.FilterKeyword, ArticleSearch.FilterKeywordIdempotent |
| backend/article/views.py:53-69 | `ArticleSerializer` declares writable nested serializers without a `create` or `update` that writes them, while the program's own client (CreateArticle.jsx:67-77) sends the category and the tags as ids | any valid article payload (a 500), and every payload the client sends (a 400 on its category) | the client creates an article, referencing its category and tags by id | not executed | Managers.CreateArticleAsWritten, Managers.CreateArticleAsWrittenNeverCreates, Managers.ClientPayloadRejected | Managers.CreateArticleByIds, Managers.CreateArticleByIdsStores |
| backend/article/views.py:90-95 | `CommentSerializer` has no `article` field, so a comment is saved without one | a payload `{article: 1, content: "hi"}` for an existing article 1 | the comment is stored on the named article | not executed | Managers.CreateCommentAsWritten, Managers.CreateCommentAsWrittenNeverCreates | Managers.CreateComment, Managers.CreateCommentStores |
