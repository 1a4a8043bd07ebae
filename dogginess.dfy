/**
 * The two angle classifiers and the angle difference. An angle is the rounded
 * degree value of atan2(people, dogs) and is taken here as a given integer.
 */
module Dogginess {

  /** The labels of `classify_dogginess_tot`, from the dog end to the human end. */
  const TotLabels: seq<string> := ["Who's a good boy, yes you are!", "Animorph", "You're a human!!"]

  /** The labels of `classify_dogginess_prop`, in the same order; they are also the quiz answers. */
  const PropLabels: seq<string> := ["Dog", "Could be either", "Human"]

  /** The bucket an angle falls in: its position in either label list. */
  predicate InBucket(angle: int, b: nat)
  {
    (b == 0 && 0 <= angle <= 34) || (b == 1 && 35 <= angle <= 55) || (b == 2 && (angle < 0 || 55 < angle))
  }

  function ClassifyDogginessTot(angle: int): (tag: string)
    ensures tag in TotLabels
    ensures tag == TotLabels[0] <==> 0 <= angle <= 34
    ensures tag == TotLabels[1] <==> 35 <= angle <= 55
    ensures tag == TotLabels[2] <==> angle < 0 || 55 < angle
  {
    if 0 <= angle <= 34 then "Who's a good boy, yes you are!"
    else if 35 <= angle <= 55 then "Animorph"
    else "You're a human!!"
  }

  function ClassifyDogginessProp(angle: int): (tag: string)
    ensures tag in PropLabels
    ensures tag == PropLabels[0] <==> 0 <= angle <= 34
    ensures tag == PropLabels[1] <==> 35 <= angle <= 55
    ensures tag == PropLabels[2] <==> angle < 0 || 55 < angle
  {
    if 0 <= angle <= 34 then "Dog"
    else if 35 <= angle <= 55 then "Could be either"
    else "Human"
  }

  /** Both classifiers put every angle in the same bucket, and each bucket is the one the angle falls in. */
  lemma ClassifiersAgree(angle: int, b: nat)
    requires b < 3
    ensures ClassifyDogginessTot(angle) == TotLabels[b] <==> InBucket(angle, b)
    ensures ClassifyDogginessProp(angle) == PropLabels[b] <==> InBucket(angle, b)
  {
  }

  /** `abs(dog_angle_tot - dog_angle_prop)`. */
  function AngleDiff(a: int, b: int): (d: nat)
    ensures d == a - b || d == b - a
  {
    if a >= b then a - b else b - a
  }

  lemma AngleDiffSymmetric(a: int, b: int)
    ensures AngleDiff(a, b) == AngleDiff(b, a)
    ensures AngleDiff(a, b) == 0 <==> a == b
  {
  }
}
