/** The exam card on the student's exam list (`ExamCard`): the status badge
    and whether the start button shows. Whether the exam window is open now
    (`isExamActive`) is an input. */
module ExamCard {

  /** The status the list passes in. */
  datatype CardStatus = Open | Attended

  datatype Label = Completed | Active | Upcoming

  datatype Colour = Green | Blue | Grey

  function LabelText(l: Label): string {
    match l
    case Completed => "Completed"
    case Active => "Active"
    case Upcoming => "Upcoming"
  }

  /** The colour that goes with each label. */
  function ColourOf(l: Label): Colour {
    match l
    case Completed => Green
    case Active => Blue
    case Upcoming => Grey
  }

  function ColourClasses(c: Colour): string {
    match c
    case Green => "bg-green-100 text-green-800"
    case Blue => "bg-blue-100 text-blue-800"
    case Grey => "bg-gray-100 text-gray-800"
  }

  /** The badge text: an attended exam is `Completed` whatever its window;
      otherwise `Active` iff the window is open, else `Upcoming`. */
  function BadgeLabel(status: CardStatus, active: bool): (l: Label)
    ensures l == Completed <==> status == Attended
    ensures l == Active <==> status != Attended && active
    ensures l == Upcoming <==> status != Attended && !active
  {
    if status == Attended then Completed else if active then Active else Upcoming
  }

  /** The badge colour, written separately in the source with the same
      precedence; it always matches the label. */
  function BadgeColour(status: CardStatus, active: bool): (c: Colour)
    ensures c == ColourOf(BadgeLabel(status, active))
  {
    if status == Attended then Green else if active then Blue else Grey
  }

  /** The start button (and the fullscreen notice) shows iff the card is open,
      the window is open and a start handler was given. */
  function ShowsStart(status: CardStatus, active: bool, hasOnStart: bool): (r: bool)
    ensures r ==> status != Attended
    ensures r ==> BadgeLabel(status, active) == Active
    ensures r <==> status == Open && active && hasOnStart
  {
    status == Open && active && hasOnStart
  }
}
