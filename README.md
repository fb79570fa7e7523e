# lessonhub-api — a Dafny model of its course, account and rate-limit logic

lessonhub-api is a FastAPI backend that registers users, gives each a credit
balance, and spends one credit per "course" that it asks a language model to
write. This project models three parts of it in Dafny and proves properties of them:

- **Course routes** (`app/routes/courses.py`):
  - pulling the JSON text out of the model's reply, which may be wrapped in a
    fenced block labelled as JSON or in a plain one;
  - the generation flow: check the credits, decode the reply, build a course
    owned by the caller, commit it, and only then take one credit and commit
    again;
  - the two owner-filtered reads.
- **Sliding-window rate limiter** (`app/middleware.py`): the map from client id
  to timestamps, the pruning and the admission rule, the choice of the client
  id, and the remaining-quota header.
- **Account routes** (`app/routes/users.py`): registration with 10 starting
  credits, reading one's own row, and the partial update of one's own row.
  Emails stay unique throughout.

Modules, one file each:

| file | module | what it holds |
|---|---|---|
| `wrappers.dfy` | `Wrappers` | `Option`, `Result` |
| `pytext.dfy` | `PyText` | the Python `str` behaviour the code uses: `in`, `find`, `split(sep)`, `strip()`, `startswith`, `str(n)` |
| `store.dfy` | `Store` | `User`, `Course`, `Json` values; the `Database` class (the two tables, id counters, a ghost log of commits); the email lookup |
| `courses.dfy` | `Courses` | fence extraction, `GenerateCourse`, `MyCourses`, `GetCourse` |
| `ratelimit.dfy` | `RateLimit` | `RateLimiter` with `IsAllowed`, pure `Recent`/`Admit`/`Run`, client id, remaining quota, the middleware decision |
| `users.dfy` | `Users` | `CreateUser`, `GetMe`, `UpdateMe` |

The outside world enters as parameters:
- the model's reply is an `Option<string>`, where `None` means the call or reading its text raised;
- `json.loads` is a function parameter `string -> Option<Json>`, where `None` is a `JSONDecodeError`;
- the bcrypt hash of a supplied password is a string parameter;
- the clock is an integer `now`;
- the authenticated caller is a user id that must be in the users table.

## How a course is paid for

The generation route spends credits in this order:
- it only checks the balance (`credits < 1` fails with 400); no credit is reserved before the model call;
- it adds the course and commits it;
- only then does it lower `credits` by one and commit again (`app/routes/courses.py:202-207`);
- no failure path touches the balance, so nothing is ever refunded;
- there is no timeout on the model call, and the quiz in the reply is not validated.

`GenerateCourse` states this order. On success, the commit log gains two states: first the new course with the old balance, then the lowered balance.

`app/main.py` never installs `rate_limit_middleware`. The limiter and the middleware are modelled as written, including the choice of bucket (see Findings).

## Model

| member | source | states |
|---|---|---|
| `PyText.Find` | app/routes/courses.py:182-184 | `p in s` and `str.find`: the result is the first index where `p` occurs, and None exactly when `p` does not occur |
| `PyText.Split` | app/routes/courses.py:183-185 | `s.split(sep)` has at least one piece, and at least two exactly when `sep` occurs in `s` |
| `PyText.SplitHead` | app/routes/courses.py:183 | `s.split(sep)[0]` is the prefix of `s` up to its first `sep` (or all of `s`) and holds no `sep` |
| `PyText.SplitSecond` | app/routes/courses.py:183-185 | `s.split(sep)[1]` is what follows the first `sep`, up to the next one |
| `PyText.Strip` | app/routes/courses.py:187 | `strip()` returns a contiguous piece of the input that neither starts nor ends with whitespace |
| `PyText.StripRemovesOnlySpace` | app/routes/courses.py:187 | what `strip()` removes from either end is whitespace only |
| `PyText.StripIdempotent` | app/routes/courses.py:187 | stripping twice equals stripping once |
| `PyText.DecimalInjective` | app/middleware.py:46 | `str(id)` of two different ids differ |
| `Courses.Candidate` | app/routes/courses.py:182-185 | the candidate always lies inside the reply and holds no "```". With "```json", take the text after the first marker, up to the next "```json" (or the end). The candidate is that text up to its first "```" (or its end). Else with "```": the text between the first and the next fence (or the end). Else the whole reply |
| `Courses.CandidateJsonExact` | app/routes/courses.py:182-183 | in the "```json" case the candidate ends at the first "```" after the marker, when no four backticks in a row follow the marker |
| `Courses.HasCourseKeys` | app/routes/courses.py:190-195 | the six key reads succeed exactly when the decoded value is an object whose keys include title, subtitle, wallpaper, modules, final_summary and assessment_quiz |
| `Courses.CandidateIdempotent` | app/routes/courses.py:182-185 | extracting from a candidate returns it unchanged |
| `Courses.JsonText` | app/routes/courses.py:182-187 | the string given to `json.loads` lies inside the reply and holds no fence |
| `Courses.JsonTextIdempotent` | app/routes/courses.py:182-187 | extracting and stripping the decoder's input again changes nothing |
| `Courses.FencedReplyBody` | app/routes/courses.py:182-183 | "```json" + body + "```", with no backtick in the body, yields the body |
| `Courses.BareReplyExample` | app/routes/courses.py:182-187 | the bare reply `{"title":"x"}` reaches the decoder unchanged |
| `Courses.FencedReplyExample` | app/routes/courses.py:182-187 | a fenced `{"title":"x"}` reply reaches the decoder without fences or line breaks |
| `Courses.GenerationResult` | app/routes/courses.py:27-223 | the request fails with InsufficientCredits (400) exactly when credits < 1. With credits, it fails with UnreadableReply (500) exactly when decoding fails. It fails with GenerationFailed (500) exactly when the reply is missing or the decoded value lacks a course key. It succeeds exactly when the decoded value is an object with all six course keys. The course is then owned by the caller, takes language, depth and tone from the request and its content from the decoded keys |
| `Courses.StoreCourse` | app/routes/courses.py:202-207 | the new course is stored under the next id and committed. Then the owner's credits drop by exactly one and are committed. Nothing else changes, and the table invariants hold |
| `Store.Database.AddCourse` | app/routes/courses.py:202-204 | adding a course under the next id, owned by an existing user, changes only the courses table and the counter, keeps the invariants and logs one commit |
| `Store.Database.SpendCredit` | app/routes/courses.py:206-207 | lowering a balance of at least one by one changes only that user's credits, keeps them ≥ 0 and logs one commit |
| `Courses.GenerateCourse` | app/routes/courses.py:27-223 | every failure leaves the database unchanged. Success adds exactly one course under a fresh id and lowers only the caller's credits, by exactly 1, so they stay ≥ 0. It commits the course first and the lowered balance second |
| `Courses.MyCourses` | app/routes/courses.py:233 | the listing holds exactly the courses whose owner is the caller |
| `Courses.GetCourse` | app/routes/courses.py:245-256 | a course is returned only when both its id and its owner match; otherwise the answer is CourseNotFound with status 404 |
| `Courses.GetCourseAgreesWithMyCourses` | app/routes/courses.py:233-248 | an id can be fetched exactly when it is in the caller's listing, and both give the same course |
| `Courses.NewCourseListedForOwnerOnly` | app/routes/courses.py:199-203 | a new course appears in its owner's listing only; every other listing stays the same |
| `RateLimit.Recent` | app/middleware.py:20-23 | pruning keeps exactly the timestamps `t` with `now - t < window` and never lengthens the list |
| `RateLimit.RecentAppend` | app/middleware.py:20-23 | pruning works element by element, so the survivors keep their relative order |
| `RateLimit.RecentIdempotent` | app/middleware.py:20-23 | pruning twice at the same instant is pruning once |
| `RateLimit.Admit` | app/middleware.py:20-31 | one call admits exactly when fewer than `max_requests` entries survive pruning. The stored list is the survivors in order, followed by `now` when admitted |
| `RateLimit.AdmitStep` | app/middleware.py:20-31 | for a client with j live entries, a call is admitted exactly when j < max_requests. The live entries then number j + 1, else j |
| `RateLimit.AdmitKeepsBound` | app/middleware.py:26-31 | a list of at most `max_requests` entries stays within that bound after a call. An admitted call makes it exactly one longer than the pruned list |
| `RateLimit.AdmitKeepsOnlyRecent` | app/middleware.py:20-31 | with a positive window, every stored timestamp is strictly inside the window at the call's time |
| `RateLimit.AdmitRemaining` | app/middleware.py:57-60 | after an admission, the remaining quota lies in [0, max_requests - 1] |
| `RateLimit.BurstFrom` | app/middleware.py:20-31 | k calls at one instant, for a client with j entries still inside the window (stamped at any earlier instants) and a limit of n ≥ j: the first n - j are admitted and the rest rejected |
| `RateLimit.SameInstantBurst` | app/middleware.py:20-31 | with limit N, N + 1 calls at one instant admit the first N and reject the last |
| `RateLimit.LimitTwoExample` | app/middleware.py:20-31 | limit 2, window 60: calls at 0, 0 and 1 give admit, admit, reject. A call at 61 is admitted again |
| `RateLimit.RateLimiter.constructor` | app/middleware.py:9-13 | limits default to 100 requests per 60 seconds; no client has a list |
| `RateLimit.RateLimiter.IsAllowed` | app/middleware.py:15-31 | a call is refused exactly when the pruned list already has ≥ `max_requests` entries. The stored list is then the pruned list; otherwise it is the pruned list plus `now`. No other client's list changes. The bound on list length is kept. With a positive window, every stored entry is inside it |
| `RateLimit.ClientId` | app/middleware.py:38-46 | a signed-in user's bucket is "user_" followed by the decimal id, whatever the path. An anonymous request to a path starting with "/login" or "/register" goes to "auth_" + host. Any other request goes to the bare host |
| `RateLimit.ClientIdBuckets` | app/middleware.py:38-46 | a signed-in user's bucket depends only on the user id, and different users get different buckets. An anonymous call to an authentication path is counted apart from the same host's other calls |
| `RateLimit.MountedLoginMissesAuthBucket` | app/middleware.py:41-42 | as written, "/api/login" and "/api/register" fall into the bare-host bucket |
| `RateLimit.MountedAuthBucket` | app/middleware.py:41-42 | with the "/api" prefix recognised, anonymous login and register calls go to "auth_" + host, apart from that host's other calls |
| `RateLimit.RemainingQuota` | app/middleware.py:57-60 | the remaining-quota header never exceeds the limit. It is non-negative exactly when the stored list is within the limit, and zero exactly when the list is full |
| `RateLimit.RateLimitMiddleware` | app/middleware.py:36-60 | the request is counted in the bucket `ClientId` picks, as written. The answer is 429 exactly when `is_allowed` refuses. Otherwise the headers report the limit and the remaining quota: max_requests minus the surviving entries minus the request just admitted, which lies in [0, max_requests - 1] |
| `Store.Database.Commit` | app/routes/courses.py:203-207 | a commit records the current contents of both tables |
| `Store.Database.FindUserByEmail` | app/routes/users.py:14 | the lookup returns a row with that email other than the excluded one, and None exactly when no such row exists |
| `Store.PutKeepsEmailsUnique` | app/routes/users.py:48-51 | writing a row whose email no other row holds keeps emails unique |
| `Users.Patched` | app/routes/users.py:45-53 | name, email and password hash change exactly when supplied. Id, credits and the active flag never change |
| `Users.EmptyUpdateKeepsRow` | app/routes/users.py:45-53 | an update that supplies nothing leaves the row as it was |
| `Users.PatchedTwice` | app/routes/users.py:45-53 | a repeated update leaves the row as one update would, with the hash from the later request |
| `Users.RepeatedPasswordUpdateRehashes` | app/routes/users.py:52-53 | the hasher salts each call, so a repeated password update with a different hash stores a different row than the first |
| `Users.OwnEmailIsNoConflict` | app/routes/users.py:48 | the update's lookup excludes the caller's row, so re-sending one's own email is never a conflict. The registration lookup would report it |
| `Users.CreateUser` | app/routes/users.py:11-33 | a taken email fails with 400 and leaves the tables unchanged. Otherwise exactly one new row is added, with the given name and email, the hash, is_active true and 10 credits. Emails stay unique |
| `Users.GetMe` | app/routes/users.py:35-37 | returns the caller's own row as stored |
| `Users.UpdateMe` | app/routes/users.py:39-56 | an email held by another row fails with 400 and nothing is committed. Otherwise the caller's row becomes the patched row and no other row changes. Emails stay unique |

## Findings

| source | as written | input that shows it | evidently intended | confidence | as-written member | corrected member |
|---|---|---|---|---|---|---|
| app/middleware.py:41 | the authentication bucket is chosen by `path.startswith("/login")` or `"/register"` | path "/api/login", where app/main.py:23-24 mounts the login route, gives the bare host as client id | calls to the login and register routes are counted in the "auth_" + host bucket | medium, not executed (the middleware is not installed by app/main.py) | `RateLimit.MountedLoginMissesAuthBucket` | `RateLimit.MountedAuthBucket` |

`RateLimit.ClientId` and `RateLimit.RateLimitMiddleware` keep the code as written. `RateLimit.ClientIdMounted` is the corrected bucket choice.

## Left out

- The Gemini client, the call to it and the prompt text (app/routes/courses.py:15-16, 34-178). These are a foreign network call and a fixed string; the reply text is an input.
- `json.loads`: it is a library decoder, modelled as a function parameter.
  - An exception other than `JSONDecodeError` that it raises is not modelled (for example, nesting too deep).
- bcrypt hashing and JWT creation. These are foreign crypto calls; the hash is an input. `app/routes/auth.py` and `utils` (including `get_current_user`) are not part of this model.
- SQLAlchemy sessions, engine, CORS and startup.
  - The database is two maps and a commit log.
  - A failing commit, refresh or query is not modelled.
  - User rows are values in a map, not ORM objects that other code may hold.
- Response serialisation through `schemas.CourseResponse` and `schemas.CourseList` is not modelled. The list is a map from course id to course; SQL gives no order.
  - `schemas.CourseResponse` requires an `introduction` field (app/schemas.py:82) that `models.Course` has no column for. So serialising the answers of `generate_course` and `get_course` would likely fail, after the course and the spent credit are already committed. The model stops at the value the route returns.
- The exception text that the 500 details append (`str(e)`) is not modelled; the error kinds and status codes are.
- `threading.Lock` and any concurrent interleaving, including two `generate_course` calls at once. Calls are modelled one at a time.
- `time.time()` floats. Timestamps are integers.
- Request validation by pydantic (for example, `EmailStr`). Emails are plain strings, compared exactly.
- `PyText.IsSpace`: covers the whitespace that `str.strip()` removes in the ASCII and Latin-1 range only, not the rest of Unicode.
- `Store.Json`: numbers are exact reals. Binary floating-point rounding is not modelled, and `json.loads`'s NaN and infinities have no value; no contract depends on number values.
