/** The details panel's gates and summaries (components/DetailsPanel.tsx):
    who may edit or rate a point, the rating count, the viewer's own rating,
    and the name editor. */
module Details {
  import opened Wrappers
  import opened Types
  import opened Ratings

  /** `point?.creatorId`: the creator of the shown point, if any. */
  function CreatorOf(p: Option<Point>): Option<string> {
    if p.Some? then p.value.creatorId else None
  }

  /** `canModify`: a user is logged in and the point's creator is missing
      (absent or the empty string, both falsy) or is that user. */
  predicate CanModify(user: Option<User>, p: Option<Point>) {
    user.Some? &&
    (CreatorOf(p).None? || CreatorOf(p) == Some("") || CreatorOf(p) == Some(user.value.id))
  }

  /** `canRate`: a user is logged in and is not the point's creator. */
  predicate CanRate(user: Option<User>, p: Option<Point>) {
    user.Some? && CreatorOf(p) != Some(user.value.id)
  }

  /** The owner of a point may edit it but not rate it. */
  lemma OwnerModifiesButCannotRate(u: User, p: Point)
    requires p.creatorId == Some(u.id)
    ensures CanModify(Some(u), Some(p)) && !CanRate(Some(u), Some(p))
  {
  }

  /** Anyone else may rate a point with a creator but not edit it. */
  lemma OthersRateButCannotModify(u: User, p: Point)
    requires p.creatorId.Some? && p.creatorId.value != "" && p.creatorId.value != u.id
    ensures CanRate(Some(u), Some(p)) && !CanModify(Some(u), Some(p))
  {
  }

  /** A point without creator may be both edited and rated by any user. */
  lemma UnownedPointIsOpen(u: User, p: Point)
    requires p.creatorId.None?
    ensures CanModify(Some(u), Some(p)) && CanRate(Some(u), Some(p))
  {
  }

  /** For a logged-in user the gates exclude each other on a point with a
      (non-empty) creator; both open exactly on a point without creator, or
      with the empty creator when the user's own id is not empty. */
  lemma GatesAreComplementary(u: User, p: Point)
    ensures p.creatorId.Some? && p.creatorId.value != "" ==>
      (CanModify(Some(u), Some(p)) <==> !CanRate(Some(u), Some(p)))
    ensures CanModify(Some(u), Some(p)) && CanRate(Some(u), Some(p)) <==>
      p.creatorId.None? || (p.creatorId == Some("") && u.id != "")
    ensures CanModify(Some(u), Some(p)) || CanRate(Some(u), Some(p))
  {
  }

  /** Without a user nothing is allowed. */
  lemma AnonymousCanDoNothing(p: Option<Point>)
    ensures !CanModify(None, p) && !CanRate(None, p)
  {
  }

  /** `totalRatings`: the length of the rating list, 0 when it is absent. */
  function TotalRatings(p: Option<Point>): (n: nat)
    ensures p.None? || p.value.ratings.None? ==> n == 0
    ensures p.Some? && p.value.ratings.Some? ==> n == |p.value.ratings.value|
  {
    if p.Some? && p.value.ratings.Some? then |p.value.ratings.value| else 0
  }

  /** `userRating`: the value of the viewer's first rating, 0 when there is
      none (or no viewer). */
  function UserRating(p: Option<Point>, user: Option<User>): (v: int)
    ensures (p.Some? && p.value.ratings.Some? && user.Some? &&
             RatingOf(p.value.ratings.value, user.value.id).Some?) ==>
            v == RatingOf(p.value.ratings.value, user.value.id).value
    ensures user.None? || p.None? || p.value.ratings.None? ==> v == 0
    ensures (p.Some? && p.value.ratings.Some? && user.Some? &&
             RatingOf(p.value.ratings.value, user.value.id).None?) ==> v == 0
  {
    if p.Some? && p.value.ratings.Some? && user.Some? then
      RatingOf(p.value.ratings.value, user.value.id).GetOr(0)
    else 0
  }

  /** After the viewer rates a point, the panel shows that value as theirs,
      and the count grows by one exactly when it was their first rating. */
  lemma PanelAfterRating(p: Point, u: User, value: int)
    ensures var q := p.(ratings := Some(UpsertRating(p.ratings, u.id, value)));
      && UserRating(Some(q), Some(u)) == value
      && TotalRatings(Some(q)) == TotalRatings(Some(p))
           + (if RatingOf(p.ratings.GetOr([]), u.id).None? then 1 else 0)
  {
  }

  /** The characters `String.prototype.trim` removes: white space and line
      terminators. */
  predicate IsSpace(c: char) {
    c == '\t' || c == '\n' || c == '\U{000B}' || c == '\U{000C}' || c == '\r' || c == ' '
    || c == '\U{00A0}' || c == '\U{1680}' || ('\U{2000}' <= c <= '\U{200A}')
    || c == '\U{2028}' || c == '\U{2029}' || c == '\U{202F}' || c == '\U{205F}'
    || c == '\U{3000}' || c == '\U{FEFF}'
  }

  /** The number of leading white-space characters. */
  function Lead(s: string): (i: nat)
    ensures i <= |s|
    ensures forall k :: 0 <= k < i ==> IsSpace(s[k])
    ensures i < |s| ==> !IsSpace(s[i])
  {
    if |s| == 0 || !IsSpace(s[0]) then 0
    else
      var i := 1 + Lead(s[1..]);
      assert forall k :: 1 <= k < i ==> s[k] == s[1..][k - 1];
      i
  }

  /** The length of the input without its trailing white space. */
  function Tail(s: string): (j: nat)
    ensures j <= |s|
    ensures forall k :: j <= k < |s| ==> IsSpace(s[k])
    ensures j > 0 ==> !IsSpace(s[j - 1])
  {
    if |s| == 0 || !IsSpace(s[|s| - 1]) then |s|
    else Tail(s[..|s| - 1])
  }

  /** `trim()`: the input without leading and trailing white space; blank
      input becomes empty. */
  function Trim(s: string): (r: string)
    ensures r == [] <==> forall k :: 0 <= k < |s| ==> IsSpace(s[k])
    ensures r != [] ==> Lead(s) < Tail(s) && r == s[Lead(s)..Tail(s)]
    ensures r != [] ==> !IsSpace(r[0]) && !IsSpace(r[|r| - 1])
  {
    var i := Lead(s);
    if i == |s| then []
    else
      var j := Tail(s);
      assert !IsSpace(s[i]);
      s[i..j]
  }

  /** Trimming is idempotent. */
  lemma TrimIsIdempotent(s: string)
    ensures Trim(Trim(s)) == Trim(s)
  {
    var t := Trim(s);
    if t != [] {
      assert Lead(t) == 0;
      assert Tail(t) == |t|;
    }
  }

  /** The in-place name editor: whether it is open and what it holds. */
  datatype NameEditor = NameEditor(editing: bool, buffer: string)

  /** A rename the panel asks the application for. */
  datatype RenameRequest = RenameRequest(id: string, name: string)

  /** The keys the name input reacts to. */
  datatype Key = Enter | Escape | OtherKey

  /** `handleStartEditingName`: opens the editor on the current name, only
      when a point is shown and the viewer may modify it. */
  function StartEditing(ed: NameEditor, user: Option<User>, p: Option<Point>): (r: NameEditor)
    ensures !(p.Some? && CanModify(user, p)) ==> r == ed
    ensures p.Some? && CanModify(user, p) ==> r == NameEditor(true, p.value.name)
  {
    if p.None? || !CanModify(user, p) then ed else NameEditor(true, p.value.name)
  }

  /** `handleSaveName`: asks for a rename to the trimmed text when the trimmed
      text is non-empty and the raw text differs from the current name; the
      editor always closes. */
  function SaveName(ed: NameEditor, p: Option<Point>): (r: (NameEditor, Option<RenameRequest>))
    ensures !r.0.editing && r.0.buffer == ed.buffer
    ensures r.1.Some? <==> p.Some? && Trim(ed.buffer) != [] && ed.buffer != p.value.name
    ensures r.1.Some? ==> r.1.value == RenameRequest(p.value.id, Trim(ed.buffer))
    ensures r.1.Some? ==> |r.1.value.name| > 0 && !IsSpace(r.1.value.name[0])
  {
    var request := if p.Some? && Trim(ed.buffer) != [] && ed.buffer != p.value.name
      then Some(RenameRequest(p.value.id, Trim(ed.buffer))) else None;
    (ed.(editing := false), request)
  }

  /** `handleNameInputKey`: Enter saves, Escape closes the editor and resets
      the text to the current name (empty without a point), other keys do
      nothing. */
  function NameKey(ed: NameEditor, p: Option<Point>, key: Key): (r: (NameEditor, Option<RenameRequest>))
    ensures key == Enter ==> r == SaveName(ed, p)
    ensures key == Escape ==>
      r == (NameEditor(false, if p.Some? then p.value.name else ""), None)
    ensures key == OtherKey ==> r == (ed, None)
  {
    match key
    case Enter => SaveName(ed, p)
    case Escape => (NameEditor(false, if p.Some? then p.value.name else ""), None)
    case OtherKey => (ed, None)
  }

  /** Opening the editor and saving at once asks for no rename: the text is
      the current name. */
  lemma StartThenSaveIsNoOp(ed: NameEditor, user: Option<User>, p: Point)
    requires CanModify(user, Some(p))
    ensures StartEditing(ed, user, Some(p)).editing
    ensures SaveName(StartEditing(ed, user, Some(p)), Some(p)).1.None?
  {
  }

  /** Escape throws the edit away: pressing Enter afterwards asks for no
      rename, whatever had been typed. */
  lemma EscapeDiscardsEdit(ed: NameEditor, p: Point)
    ensures var afterEscape := NameKey(ed, Some(p), Escape).0;
      !afterEscape.editing && NameKey(afterEscape, Some(p), Enter).1.None?
  {
  }
}
