/** The deadline badges of the project and task cards: a colour from the number
    of days left, by fixed thresholds. The day count itself comes from date
    arithmetic outside this model and is taken as given. */
module Badges {

  /** The Tailwind background classes the badges use. */
  datatype Colour = Green | Yellow | Red | Neutral | Gray

  function ClassName(c: Colour): string
  {
    match c
    case Green => "bg-green-600"
    case Yellow => "bg-yellow-500"
    case Red => "bg-red-600"
    case Neutral => "bg-neutral-700"
    case Gray => "bg-gray-700"
  }

  /** How relaxed a colour is: overdue 0, red 1, yellow 2, green 3. */
  function Calm(c: Colour): nat
  {
    match c
    case Neutral => 0
    case Gray => 0
    case Red => 1
    case Yellow => 2
    case Green => 3
  }

  /** The shared thresholds: more than 7 days green, more than 3 yellow, a
      non-negative count red, a past deadline the given overdue colour. */
  function ByDaysLeft(daysLeft: int, overdue: Colour): (c: Colour)
    requires Calm(overdue) == 0
    ensures daysLeft > 7 <==> c == Green
    ensures 3 < daysLeft <= 7 <==> c == Yellow
    ensures 0 <= daysLeft <= 3 <==> c == Red
    ensures daysLeft < 0 <==> c == overdue
  {
    if daysLeft > 7 then Green
    else if daysLeft > 3 then Yellow
    else if daysLeft >= 0 then Red
    else overdue
  }

  /** More days left never gives a more alarming colour. */
  lemma ByDaysLeftMonotone(d1: int, d2: int, overdue: Colour)
    requires Calm(overdue) == 0
    requires d1 <= d2
    ensures Calm(ByDaysLeft(d1, overdue)) <= Calm(ByDaysLeft(d2, overdue))
  {
  }
}
