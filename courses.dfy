/** The course routes of app/routes/courses.py: pulling the JSON text out of
    the language model's reply, turning a decoded reply into a course owned by
    the caller, spending one credit for it, and the two owner-filtered reads.

    The language-model call is outside the model: its reply text is an input
    (None when the call or reading its text raised).  So is `json.loads`: it is
    the parameter `decode`, None standing for a `JSONDecodeError`. */
module Courses {
  import opened Wrappers
  import opened PyText
  import opened Store

  /** The generic code fence and the fence labelled as JSON. */
  const Fence: string := "```"
  const JsonFence: string := "```json"

  /** The body of POST /generate-course (`schemas.CourseRequest`).  When the
      client omits them, language is "Português", depth "Intermediário", tone
      "Formal" and the cover flag true; a client may also send them as null. */
  datatype CourseRequest = CourseRequest(
    topic: string,
    language: Option<string>,
    depthLevel: Option<string>,
    voiceTone: Option<string>,
    generateCoverImage: Option<bool>)

  /** The HTTP errors of the course routes. */
  datatype CourseError =
    | InsufficientCredits   // 400 "Créditos insuficientes para gerar o curso"
    | UnreadableReply       // 500 "Erro ao processar resposta da IA: ..."
    | GenerationFailed      // 500 "Erro ao gerar curso: ..."
    | CourseNotFound        // 404 "Curso não encontrado ou você não tem permissão para acessá-lo"

  function StatusCode(e: CourseError): nat
  {
    match e
    case InsufficientCredits => 400
    case UnreadableReply => 500
    case GenerationFailed => 500
    case CourseNotFound => 404
  }

  /** The six keys the route reads from the decoded reply. */
  const CourseKeys: set<string> :=
    {"title", "subtitle", "wallpaper", "modules", "final_summary", "assessment_quiz"}

  /** Reading every course key succeeds: the reply decoded to an object
      holding all of them (otherwise Python raises KeyError or TypeError). */
  predicate HasCourseKeys(data: Json): (b: bool)
    ensures b <==> data.JObject? && CourseKeys <= data.fields.Keys
  {
    && data.JObject?
    && "title" in data.fields && "subtitle" in data.fields && "wallpaper" in data.fields
    && "modules" in data.fields && "final_summary" in data.fields && "assessment_quiz" in data.fields
  }

  // ------------------------------------------------------------ fence extraction

  lemma JsonFenceStartsWithFence()
    ensures JsonFence == Fence + "json"
  {
  }

  /** Text holding the JSON fence holds the plain fence. */
  lemma JsonFenceImpliesFence(s: string)
    requires Contains(s, JsonFence)
    ensures Contains(s, Fence)
  {
    JsonFenceStartsWithFence();
    ContainsPrefixOf(s, Fence, "json");
  }

  /** The candidate JSON text of a reply, before stripping.  With a "```json"
      in the reply it is the text after the first one, cut where a "```"
      begins (or at the end; CandidateJsonExact says that this is the first
      "```" when the reply has no run of four backticks); failing that, the
      text between the first and the second "```" (or the end); failing that,
      the whole reply.  It is always a piece of the reply and never holds a
      fence. */
  function Candidate(text: string): (c: string)
    ensures Contains(text, c)
    ensures !Contains(c, Fence)
    ensures Find(text, JsonFence).Some? ==>
      StopsAt(text[Find(text, JsonFence).value + |JsonFence|..], Fence, c)
    ensures Find(text, JsonFence).Some? ==>
      exists piece :: UpToFirst(text[Find(text, JsonFence).value + |JsonFence|..], JsonFence, piece)
                      && UpToFirst(piece, Fence, c)
    ensures Find(text, JsonFence).None? && Find(text, Fence).Some? ==>
      UpToFirst(text[Find(text, Fence).value + |Fence|..], Fence, c)
    ensures !Contains(text, Fence) ==> c == text
  {
    if Contains(text, JsonFence) then
      var c := Split(Split(text, JsonFence)[1], Fence)[0];
      JsonCase(text, c);
      JsonFenceImpliesFence(text);
      c
    else if Contains(text, Fence) then
      var c := Split(text, Fence)[1];
      FenceCase(text, c);
      c
    else
      assert OccursAt(text, text, 0);
      text
  }

  /** The piece that follows a fenced marker at index `i` of `text`. */
  lemma PieceOfText(text: string, i: nat, rest: string, c: string)
    requires i <= |text| && rest == text[i..] && c <= rest
    ensures Contains(text, c)
  {
    assert c == text[i..i + |c|];
    ContainsSlice(text, i, i + |c|);
  }

  lemma FenceCase(text: string, c: string)
    requires Contains(text, Fence) && c == Split(text, Fence)[1]
    ensures Contains(text, c) && !Contains(c, Fence)
    ensures UpToFirst(text[Find(text, Fence).value + |Fence|..], Fence, c)
  {
    var i := Find(text, Fence).value;
    var rest := text[i + |Fence|..];
    SplitSecond(text, Fence, i);
    SplitHead(rest, Fence);
    PieceOfText(text, i + |Fence|, rest, c);
  }

  lemma JsonCase(text: string, c: string)
    requires Contains(text, JsonFence) && c == Split(Split(text, JsonFence)[1], Fence)[0]
    ensures Contains(text, c) && !Contains(c, Fence)
    ensures StopsAt(text[Find(text, JsonFence).value + |JsonFence|..], Fence, c)
    ensures exists piece :: UpToFirst(text[Find(text, JsonFence).value + |JsonFence|..], JsonFence, piece)
                            && UpToFirst(piece, Fence, c)
  {
    var i := Find(text, JsonFence).value;
    var rest := text[i + |JsonFence|..];
    var piece := Split(text, JsonFence)[1];
    SplitSecond(text, JsonFence, i);
    SplitHead(rest, JsonFence);
    SplitHead(piece, Fence);
    if c != rest {
      if c == piece {
        JsonFenceStartsWithFence();
        OccursAtPrefix(rest, Fence, "json", |c|);
      } else {
        OccursInLonger(piece, rest, Fence, |c|);
      }
    }
    assert UpToFirst(rest, JsonFence, piece) && UpToFirst(piece, Fence, c);
    PieceOfText(text, i + |JsonFence|, rest, c);
  }

  /** In the "```json" case the candidate stops at the first "```" after the
      marker whenever that rest of the reply has no run of four backticks.  (A
      run such as "`````json" lets the split on "```json" cut inside a fence,
      and the candidate then ends with one or two backticks.) */
  lemma CandidateJsonExact(text: string, i: nat)
    requires Find(text, JsonFence) == Some(i)
    requires !Contains(text[i + |JsonFence|..], "````")
    ensures UpToFirst(text[i + |JsonFence|..], Fence, Candidate(text))
  {
    var rest := text[i + |JsonFence|..];
    var piece := Split(text, JsonFence)[1];
    SplitSecond(text, JsonFence, i);
    SplitHead(rest, JsonFence);
    SplitHead(piece, Fence);
    CutBeforeMarker(rest, piece, Split(piece, Fence)[0]);
  }

  /** Cutting at the first "```" the part of `rest` before its first
      "```json" is cutting `rest` itself at its first "```", unless a fence
      straddles the cut, which needs four backticks in a row. */
  lemma CutBeforeMarker(rest: string, piece: string, c: string)
    requires StopsAt(rest, JsonFence, piece) && UpToFirst(piece, Fence, c)
    requires !Contains(rest, "````")
    ensures UpToFirst(rest, Fence, c)
  {
    forall j | 0 <= j < |c| ensures !OccursAt(rest, Fence, j) {
      if j + |Fence| <= |piece| {
        assert !OccursAt(piece, Fence, j);
        assert piece[j..j + |Fence|] == rest[j..j + |Fence|];
      } else if OccursAt(rest, Fence, j) {
        JsonFenceStartsWithFence();
        OccursAtPrefix(rest, Fence, "json", |piece|);
        FencesOverlap(rest, j, |piece|);
      }
    }
    if c == piece && piece != rest {
      JsonFenceStartsWithFence();
      OccursAtPrefix(rest, Fence, "json", |piece|);
    }
    if c != piece {
      OccursInLonger(piece, rest, Fence, |c|);
    }
  }

  /** Two fences less than three characters apart make four backticks. */
  lemma FencesOverlap(s: string, j: nat, g: nat)
    requires OccursAt(s, Fence, j) && OccursAt(s, Fence, g) && j < g < j + 3
    ensures Contains(s, "````")
  {
    forall k | j <= k < j + 4 ensures s[k] == '`' {
      if k < j + 3 { assert s[k] == s[j..j + 3][k - j]; }
      else { assert s[k] == s[g..g + 3][k - g]; }
    }
    assert s[j..j + 4] == "````";
    assert OccursAt(s, "````", j);
  }

  /** Extracting again from a candidate gives the candidate back. */
  lemma CandidateIdempotent(text: string)
    ensures Candidate(Candidate(text)) == Candidate(text)
  {
    var c := Candidate(text);
    if Contains(c, JsonFence) {
      JsonFenceImpliesFence(c);
    }
  }

  /** The text handed to `json.loads`: the candidate, stripped. */
  function JsonText(text: string): (j: string)
    ensures Contains(text, j) && !Contains(j, Fence)
  {
    var c := Candidate(text);
    StrippedPiece(text, c);
    Strip(c)
  }

  /** Stripping a fence-free piece of `text` leaves a fence-free piece. */
  lemma StrippedPiece(text: string, c: string)
    requires Contains(text, c) && !Contains(c, Fence)
    ensures Contains(text, Strip(c)) && !Contains(Strip(c), Fence)
  {
    var j := Strip(c);
    var lead := |c| - |LStrip(c)|;
    ContainsSlice(c, lead, lead + |j|);
    ContainsTrans(text, c, j);
    if Contains(j, Fence) {
      ContainsTrans(c, j, Fence);
    }
  }

  /** What goes to the decoder is stable: extracting and stripping it again
      changes nothing. */
  lemma JsonTextIdempotent(text: string)
    ensures JsonText(JsonText(text)) == JsonText(text)
  {
    var j := JsonText(text);
    if Contains(j, JsonFence) {
      JsonFenceImpliesFence(j);
    }
    assert Candidate(j) == j;
    StripIdempotent(Candidate(text));
  }

  /** Without a backtick there is no fence, and no run of four. */
  lemma NoBacktick(t: string)
    requires forall k :: 0 <= k < |t| ==> t[k] != '`'
    ensures forall i :: 0 <= i < |t| ==> !OccursAt(t, Fence, i) && !OccursAt(t, "````", i)
    ensures !Contains(t, Fence)
  {
    forall i | 0 <= i < |t| ensures !OccursAt(t, Fence, i) && !OccursAt(t, "````", i) {
      if i + 3 <= |t| { assert t[i..i + 3][0] == t[i]; }
      if i + 4 <= |t| { assert t[i..i + 4][0] == t[i]; }
    }
  }

  /** A reply made of the JSON fence, a body without backticks and a
      closing fence yields that body. */
  lemma FencedReplyBody(body: string)
    requires forall k :: 0 <= k < |body| ==> body[k] != '`'
    ensures Candidate(JsonFence + body + Fence) == body
  {
    var t := JsonFence + body + Fence;
    assert OccursAt(t, JsonFence, 0);
    assert Find(t, JsonFence) == Some(0);
    var rest := t[7..];
    assert rest == body + Fence;
    NoBacktick(body);
    assert OccursAt(rest, Fence, |body|);
    forall j | 0 <= j < |body| ensures !OccursAt(rest, Fence, j) {
      assert rest[j..j + 3][0] == rest[j] == body[j];
    }
    forall j | 0 <= j < |rest| ensures !OccursAt(rest, "````", j) {
      if j + 4 <= |rest| {
        assert rest[j..j + 4][0] == rest[j];
        if j < |body| { assert rest[j] == body[j]; }
      }
    }
    CandidateJsonExact(t, 0);
  }

  /** A bare JSON reply goes to the decoder as it is. */
  lemma BareReplyExample()
    ensures JsonText("{\"title\":\"x\"}") == "{\"title\":\"x\"}"
  {
    var t := "{\"title\":\"x\"}";
    NoBacktick(t);
    LStripNoLead(t);
    RStripNoTrail(t);
  }

  /** A fenced JSON reply goes to the decoder without its fences and the
      line breaks around the object. */
  lemma FencedReplyExample()
    ensures JsonText("```json\n{\"title\":\"x\"}\n```") == "{\"title\":\"x\"}"
  {
    var inner := "{\"title\":\"x\"}";
    var body := "\n" + inner + "\n";
    assert "```json\n{\"title\":\"x\"}\n```" == JsonFence + body + Fence;
    FencedReplyBody(body);
    StripNewlines(inner);
  }

  // ------------------------------------------------------------ generation

  /** The outcome of POST /generate-course for a caller holding `credits`,
      when the new row would get id `courseId`. */
  function GenerationResult(credits: int, callerId: nat, courseId: nat, req: CourseRequest,
                            reply: Option<string>, decode: string -> Option<Json>): (r: Result<Course, CourseError>)
    ensures r == Failure(InsufficientCredits) <==> credits < 1
    ensures r == Failure(UnreadableReply) <==>
      credits >= 1 && reply.Some? && decode(JsonText(reply.value)).None?
    ensures r == Failure(GenerationFailed) <==>
      credits >= 1 && (reply.None? ||
        (decode(JsonText(reply.value)).Some? && !HasCourseKeys(decode(JsonText(reply.value)).value)))
    ensures r.Success? <==>
      credits >= 1 && reply.Some? && decode(JsonText(reply.value)).Some?
      && HasCourseKeys(decode(JsonText(reply.value)).value)
    ensures r.Failure? ==> StatusCode(r.error) == (if credits < 1 then 400 else 500)
    ensures r.Success? ==>
      var fields := decode(JsonText(reply.value)).value.fields;
      && r.value.id == courseId && r.value.userId == callerId
      && r.value.language == req.language && r.value.depthLevel == req.depthLevel
      && r.value.voiceTone == req.voiceTone
      && r.value.title == fields["title"] && r.value.subtitle == fields["subtitle"]
      && r.value.wallpaper == fields["wallpaper"] && r.value.modules == fields["modules"]
      && r.value.finalSummary == fields["final_summary"]
      && r.value.assessmentQuiz == fields["assessment_quiz"]
  {
    if credits < 1 then Failure(InsufficientCredits)
    else if reply.None? then Failure(GenerationFailed)
    else
      match decode(JsonText(reply.value))
      case None => Failure(UnreadableReply)
      case Some(data) =>
        if !HasCourseKeys(data) then Failure(GenerationFailed)
        else
          var f := data.fields;
          Success(Course(courseId, f["title"], f["subtitle"], f["wallpaper"], f["modules"],
                         f["final_summary"], f["assessment_quiz"],
                         req.language, req.depthLevel, req.voiceTone, callerId))
  }

  /** The end of a successful generation: the new course is added and
      committed, then its owner's balance is lowered by one and committed. */
  method StoreCourse(db: Database, callerId: nat, course: Course)
    requires db.Valid() && callerId in db.users && db.users[callerId].credits >= 1
    requires course.id == db.nextCourseId && course.userId == callerId
    modifies db
    ensures db.Valid()
    ensures course.id !in old(db.courses) && db.courses == old(db.courses)[course.id := course]
    ensures db.users == old(db.users)[callerId := old(db.users[callerId]).(credits := old(db.users[callerId].credits) - 1)]
    ensures db.nextUserId == old(db.nextUserId) && db.nextCourseId == old(db.nextCourseId) + 1
    ensures db.log == old(db.log) + [Snapshot(old(db.users), db.courses), Snapshot(db.users, db.courses)]
  {
    db.AddCourse(course);
    db.SpendCredit(callerId);
  }

  /** POST /generate-course.  The credit check comes first; the new course is
      added and committed, and only then is the caller's balance lowered by
      one and committed again.  Every failure leaves the database as it was. */
  method GenerateCourse(db: Database, callerId: nat, req: CourseRequest,
                        reply: Option<string>, decode: string -> Option<Json>) returns (r: Result<Course, CourseError>)
    requires db.Valid() && callerId in db.users
    modifies db
    ensures db.Valid()
    ensures r == GenerationResult(old(db.users[callerId].credits), callerId, old(db.nextCourseId), req, reply, decode)
    ensures r.Failure? ==> unchanged(db)
    ensures r.Success? ==>
      && r.value.id !in old(db.courses)
      && db.courses == old(db.courses)[r.value.id := r.value]
      && db.users == old(db.users)[callerId := old(db.users[callerId]).(credits := old(db.users[callerId].credits) - 1)]
      && db.nextUserId == old(db.nextUserId) && db.nextCourseId == old(db.nextCourseId) + 1
      && db.log == old(db.log) + [Snapshot(old(db.users), db.courses), Snapshot(db.users, db.courses)]
  {
    var user := db.users[callerId];
    ghost var expected := GenerationResult(user.credits, callerId, db.nextCourseId, req, reply, decode);
    if user.credits < 1 {
      return Failure(InsufficientCredits);
    }
    if reply.None? {
      assert expected == Failure(GenerationFailed);
      return Failure(GenerationFailed);
    }
    var text := Candidate(reply.value);
    assert JsonText(reply.value) == Strip(text);
    var parsed := decode(Strip(text));
    if parsed.None? {
      assert expected == Failure(UnreadableReply);
      return Failure(UnreadableReply);
    }
    var data := parsed.value;
    if !HasCourseKeys(data) {
      assert expected == Failure(GenerationFailed);
      return Failure(GenerationFailed);
    }
    var f := data.fields;
    var course := Course(db.nextCourseId, f["title"], f["subtitle"], f["wallpaper"], f["modules"],
                         f["final_summary"], f["assessment_quiz"],
                         req.language, req.depthLevel, req.voiceTone, callerId);
    assert expected == Success(course);
    StoreCourse(db, callerId, course);
    r := Success(course);
  }

  // ------------------------------------------------------------ reads

  /** GET /my-courses: the rows of the courses table owned by `uid`, by id. */
  function MyCourses(courses: map<nat, Course>, uid: nat): (r: map<nat, Course>)
    ensures forall k :: k in r <==> k in courses && courses[k].userId == uid
    ensures forall k :: k in r ==> r[k] == courses[k]
  {
    map k | k in courses && courses[k].userId == uid :: courses[k]
  }

  /** GET /courses/{course_id}: the row with that id, only for its owner. */
  function GetCourse(courses: map<nat, Course>, courseId: int, uid: nat): (r: Result<Course, CourseError>)
    ensures r.Success? <==> courseId >= 0 && courseId in courses && courses[courseId].userId == uid
    ensures r.Success? ==> r.value == courses[courseId] && r.value.userId == uid
    ensures r.Failure? ==> r.error == CourseNotFound && StatusCode(r.error) == 404
  {
    if courseId >= 0 && courseId in courses && courses[courseId].userId == uid then Success(courses[courseId])
    else Failure(CourseNotFound)
  }

  /** The two reads agree: a course can be fetched by its id exactly when it
      is listed among the caller's courses. */
  lemma GetCourseAgreesWithMyCourses(courses: map<nat, Course>, courseId: nat, uid: nat)
    ensures GetCourse(courses, courseId, uid).Success? <==> courseId in MyCourses(courses, uid)
    ensures GetCourse(courses, courseId, uid).Success? ==>
      GetCourse(courses, courseId, uid).value == MyCourses(courses, uid)[courseId]
  {
  }

  /** Adding a new course changes only its owner's listing, by that course. */
  lemma NewCourseListedForOwnerOnly(courses: map<nat, Course>, c: Course, uid: nat)
    requires c.id !in courses
    ensures MyCourses(courses[c.id := c], uid) ==
      if uid == c.userId then MyCourses(courses, uid)[c.id := c] else MyCourses(courses, uid)
  {
    var after := MyCourses(courses[c.id := c], uid);
    var before := MyCourses(courses, uid);
    if uid == c.userId {
      assert after.Keys == before.Keys + {c.id};
    } else {
      assert after.Keys == before.Keys;
    }
  }
}
