/**
 The state of the shared mouse tracker page (app/mouse/page.tsx): the log of
 movement rows received from the database, the local user id, the status
 text, the insert requests the page has sent and the dots currently on the
 canvas.

 The React state cells become the fields of the class `Tracker`; the
 setters become methods. The database insert is recorded as an outbound
 request in `inserts` instead of being sent, the realtime INSERT handler is
 the method `OnInsert`, and the canvas is the sequence of dots last drawn.
 Whether a canvas and a 2D context exist is the parameter `canvasReady`.
 */
module MouseTracker {
  import opened JsRuntime

  /** A row of the `mouse_movements` table. Coordinates are opaque numbers. */
  datatype MouseMovement = MouseMovement(user_id: string, x: real, y: real, created_at: string)

  /** The object `{ user_id: userId, x, y }` inserted into a table. */
  datatype InsertRequest = InsertRequest(table: string, user_id: string, x: real, y: real)

  /** The fill style of a dot. */
  datatype Color = Blue | Red

  /** A filled circle on the canvas. */
  datatype Dot = Dot(x: real, y: real, color: Color)

  const MOVEMENTS_TABLE: string := "mouse_movements"
  const IDLE: string := "Idle"
  const TRACKING: string := "Tracking..."

  /** `user_id === userId ? 'blue' : 'red'`: a string is never `===` to `null`. */
  function DotColor(user_id: string, userId: Option<string>): Color {
    if userId.Some? && userId.value == user_id then Blue else Red
  }

  /** The dot drawn for one row. */
  function DotOf(row: MouseMovement, userId: Option<string>): Dot {
    Dot(row.x, row.y, DotColor(row.user_id, userId))
  }

  /** The dots drawn for a log, one per row, in log order. */
  function Dots(rows: seq<MouseMovement>, userId: Option<string>): seq<Dot> {
    seq(|rows|, i requires 0 <= i < |rows| => DotOf(rows[i], userId))
  }

  /** Own rows are blue and every other row is red. */
  lemma DotsBlueIffOwn(rows: seq<MouseMovement>, id: string)
    ensures |Dots(rows, Some(id))| == |rows|
    ensures forall i :: 0 <= i < |rows| ==>
      (Dots(rows, Some(id))[i].color == Blue <==> rows[i].user_id == id)
  {
  }

  /** Before the identity is known, every dot is red. */
  lemma DotsAllRedWithoutIdentity(rows: seq<MouseMovement>)
    ensures forall i :: 0 <= i < |Dots(rows, None)| ==> Dots(rows, None)[i].color == Red
  {
  }

  /** The dots sit at the coordinates of the rows, in the order of the log. */
  lemma DotsFollowRows(rows: seq<MouseMovement>, userId: Option<string>)
    ensures |Dots(rows, userId)| == |rows|
    ensures forall i :: 0 <= i < |rows| ==>
      Dots(rows, userId)[i].x == rows[i].x && Dots(rows, userId)[i].y == rows[i].y
  {
  }

  /** One more row in the log is one more dot at the end; the earlier dots are unchanged. */
  lemma DotsAppend(rows: seq<MouseMovement>, row: MouseMovement, userId: Option<string>)
    ensures Dots(rows + [row], userId) == Dots(rows, userId) + [DotOf(row, userId)]
  {
    var a, b := Dots(rows + [row], userId), Dots(rows, userId) + [DotOf(row, userId)];
    assert |a| == |b|;
    forall i | 0 <= i < |a| ensures a[i] == b[i] {
      if i < |rows| {
        assert (rows + [row])[i] == rows[i];
      } else {
        assert (rows + [row])[i] == row;
      }
    }
  }

  /** The row the database echoes back for one of this page's own inserts. */
  function Echo(request: InsertRequest, created_at: string): MouseMovement {
    MouseMovement(request.user_id, request.x, request.y, created_at)
  }

  /** A movement logged under the current identity comes back as a blue dot at its position. */
  lemma OwnEchoIsBlue(rows: seq<MouseMovement>, request: InsertRequest, created_at: string, id: string)
    requires request.user_id == id
    ensures |Dots(rows + [Echo(request, created_at)], Some(id))| == |rows| + 1
    ensures Dots(rows + [Echo(request, created_at)], Some(id))[|rows|] == Dot(request.x, request.y, Blue)
  {
    DotsAppend(rows, Echo(request, created_at), Some(id));
  }

  /** `MouseTracker()`: the page's state cells and what the page has done to the world. */
  class Tracker {
    var mouseMovements: seq<MouseMovement>
    var userId: Option<string>
    var status: string
    /** The insert requests sent, oldest first. */
    var inserts: seq<InsertRequest>
    /** The dots on the canvas, in drawing order. */
    var canvas: seq<Dot>

    /** Every request went to the movements table under a non-empty identity, and none was
        sent before an identity arrived. The status is one of the two texts. */
    predicate Valid()
      reads this
    {
      (status == IDLE || status == TRACKING) &&
      (userId.None? ==> inserts == []) &&
      forall k :: 0 <= k < |inserts| ==> inserts[k].table == MOVEMENTS_TABLE && inserts[k].user_id != ""
    }

    /** The initial state: no rows, no identity, status `Idle`, nothing sent or drawn. */
    constructor ()
      ensures mouseMovements == [] && userId == None && status == IDLE
      ensures inserts == [] && canvas == []
      ensures Valid()
    {
      mouseMovements := [];
      userId := None;
      status := IDLE;
      inserts := [];
      canvas := [];
    }

    /** The mount effect `setUserId(uuidv4())`; the generated id is the parameter. */
    method AssignIdentity(id: string)
      requires Valid()
      modifies this
      ensures userId == Some(id)
      ensures mouseMovements == old(mouseMovements) && status == old(status)
      ensures inserts == old(inserts) && canvas == old(canvas)
      ensures Valid()
    {
      userId := Some(id);
    }

    /** `logMouseMovement(x, y)`: nothing happens without an identity (`!userId` also holds
        for the empty string); otherwise the status becomes `Tracking...` and one insert of
        `{ user_id: userId, x, y }` is sent. The log itself changes only when the row is echoed. */
    method LogMove(x: real, y: real)
      requires Valid()
      modifies this
      ensures old(userId).None? || old(userId).value == "" ==>
        status == old(status) && inserts == old(inserts)
      ensures old(userId).Some? && old(userId).value != "" ==>
        status == TRACKING && inserts == old(inserts) + [InsertRequest(MOVEMENTS_TABLE, old(userId).value, x, y)]
      ensures mouseMovements == old(mouseMovements) && userId == old(userId) && canvas == old(canvas)
      ensures Valid()
    {
      if userId.None? || userId.value == "" {
        return;
      }
      status := TRACKING;
      inserts := inserts + [InsertRequest(MOVEMENTS_TABLE, userId.value, x, y)];
    }

    /** The realtime INSERT handler: `setMouseMovements(prev => [...prev, payload.new])`. */
    method OnInsert(row: MouseMovement)
      requires Valid()
      modifies this
      ensures mouseMovements == old(mouseMovements) + [row]
      ensures userId == old(userId) && status == old(status)
      ensures inserts == old(inserts) && canvas == old(canvas)
      ensures Valid()
    {
      mouseMovements := mouseMovements + [row];
    }

    /** `clearCanvas()`: the log is emptied; the canvas is wiped when it and its context exist. */
    method Clear(canvasReady: bool)
      requires Valid()
      modifies this
      ensures mouseMovements == []
      ensures canvasReady ==> canvas == []
      ensures !canvasReady ==> canvas == old(canvas)
      ensures userId == old(userId) && status == old(status) && inserts == old(inserts)
      ensures Valid()
    {
      mouseMovements := [];
      if canvasReady {
        canvas := [];
      }
    }

    /** The render effect: without a canvas or a context nothing happens; otherwise the canvas is
        wiped, one dot per row is drawn, blue for this page's identity and red for the rest,
        and the status returns to `Idle`. */
    method Render(canvasReady: bool)
      requires Valid()
      modifies this
      ensures !canvasReady ==> canvas == old(canvas) && status == old(status)
      ensures canvasReady ==> canvas == Dots(old(mouseMovements), old(userId)) && status == IDLE
      ensures mouseMovements == old(mouseMovements) && userId == old(userId) && inserts == old(inserts)
      ensures Valid()
    {
      if !canvasReady {
        return;
      }
      canvas := [];
      for i := 0 to |mouseMovements|
        invariant mouseMovements == old(mouseMovements) && userId == old(userId)
        invariant inserts == old(inserts) && status == old(status)
        invariant |canvas| == i
        invariant forall j :: 0 <= j < i ==> canvas[j] == DotOf(mouseMovements[j], userId)
      {
        var row := mouseMovements[i];
        var color := if userId == Some(row.user_id) then Blue else Red;
        canvas := canvas + [Dot(row.x, row.y, color)];
      }
      status := IDLE;
    }
  }
}
