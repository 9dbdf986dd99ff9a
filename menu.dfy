// Keyboard navigation of the difficulty menu and the character selector: an
// index over n entries that wraps around in both directions. Which keys are
// pressed in the current frame is passed in as booleans.

module Menu {
  /**
   * The remainder of C++ integer division, which truncates toward zero: the
   * result has the sign of the dividend, unlike Dafny's Euclidean %.
   */
  function CppRem(a: int, n: int): (r: int)
    requires n > 0
    ensures a == CppQuot(a, n) * n + r
    ensures -n < r < n
    ensures a >= 0 ==> 0 <= r && r == a % n
    ensures a < 0 ==> r <= 0
  {
    if a >= 0 then a % n else -((-a) % n)
  }

  /** The quotient of C++ integer division, rounded toward zero. */
  function CppQuot(a: int, n: int): int
    requires n > 0
  {
    if a >= 0 then a / n else -((-a) / n)
  }

  /** Truncation is symmetric about zero: negating the dividend negates the remainder. */
  lemma CppRemNegates(a: int, n: int)
    requires n > 0
    ensures CppRem(-a, n) == -CppRem(a, n)
  {
  }

  /** The entry after s, wrapping from the last entry to the first. */
  function Next(s: int, n: int): (r: int)
    requires n > 0
    ensures s >= -1 ==> 0 <= r < n
    ensures 0 <= s < n ==> r == if s == n - 1 then 0 else s + 1
  {
    CppRem(s + 1, n)
  }

  /** The entry before s, wrapping from the first entry to the last. */
  function Previous(s: int, n: int): (r: int)
    requires n > 0
    ensures s >= 1 - n ==> 0 <= r < n
    ensures 0 <= s < n ==> r == if s == 0 then n - 1 else s - 1
  {
    CppRem(s - 1 + n, n)
  }

  /** Stepping forward then back, or back then forward, returns to the same entry. */
  lemma NextPreviousInverse(s: int, n: int)
    requires n > 0 && 0 <= s < n
    ensures Previous(Next(s, n), n) == s
    ensures Next(Previous(s, n), n) == s
  {
  }

  /** The index after k presses of the forward key. */
  function NextTimes(s: int, n: int, k: nat): int
    requires n > 0
    decreases k
  {
    if k == 0 then s else Next(NextTimes(s, n, k - 1), n)
  }

  /**
   * Pressing the forward key k times, for k up to n, moves k entries on and
   * wraps past the last entry at most once.
   */
  lemma {:induction false} NextTimesWraps(s: int, n: int, k: nat)
    requires n > 0 && 0 <= s < n && k <= n
    ensures NextTimes(s, n, k) == if s + k < n then s + k else s + k - n
    decreases k
  {
    if k > 0 {
      NextTimesWraps(s, n, k - 1);
    }
  }

  /** n presses of the forward key bring the selection back to where it started. */
  lemma FullCycle(s: int, n: int)
    requires n > 0 && 0 <= s < n
    ensures NextTimes(s, n, n) == s
  {
    NextTimesWraps(s, n, n);
  }

  /**
   * The difficulty menu (choix): the down key moves to the next button, then
   * the up key to the previous one. With no key pressed, or both, the
   * selection stays; from a valid button the result is a valid button, and
   * from any non-negative index a press lands on a valid button.
   */
  function Choix(selectedButton: int, nmbrButton: int, downPressed: bool, upPressed: bool): (r: int)
    requires nmbrButton > 0
    ensures !downPressed && !upPressed ==> r == selectedButton
    ensures 0 <= selectedButton < nmbrButton ==> 0 <= r < nmbrButton
    ensures selectedButton >= 0 && (downPressed || upPressed) ==> 0 <= r < nmbrButton
    ensures 0 <= selectedButton < nmbrButton && downPressed && upPressed ==> r == selectedButton
    ensures 0 <= selectedButton < nmbrButton && downPressed && !upPressed ==>
              r == if selectedButton == nmbrButton - 1 then 0 else selectedButton + 1
    ensures 0 <= selectedButton < nmbrButton && upPressed && !downPressed ==>
              r == if selectedButton == 0 then nmbrButton - 1 else selectedButton - 1
  {
    var afterDown := if downPressed then Next(selectedButton, nmbrButton) else selectedButton;
    if upPressed then Previous(afterDown, nmbrButton) else afterDown
  }

  /**
   * The character selector (choix2): the right key moves to the next
   * character, then the left key to the previous one, with the same
   * wrap-around as the menu.
   */
  function Choix2(selectedCharacter: int, nmbrButton: int, rightPressed: bool, leftPressed: bool): (r: int)
    requires nmbrButton > 0
    ensures !rightPressed && !leftPressed ==> r == selectedCharacter
    ensures 0 <= selectedCharacter < nmbrButton ==> 0 <= r < nmbrButton
    ensures selectedCharacter >= 0 && (rightPressed || leftPressed) ==> 0 <= r < nmbrButton
    ensures 0 <= selectedCharacter < nmbrButton && rightPressed && leftPressed ==> r == selectedCharacter
    ensures 0 <= selectedCharacter < nmbrButton && rightPressed && !leftPressed ==>
              r == if selectedCharacter == nmbrButton - 1 then 0 else selectedCharacter + 1
    ensures 0 <= selectedCharacter < nmbrButton && leftPressed && !rightPressed ==>
              r == if selectedCharacter == 0 then nmbrButton - 1 else selectedCharacter - 1
  {
    var afterRight := if rightPressed then Next(selectedCharacter, nmbrButton) else selectedCharacter;
    if leftPressed then Previous(afterRight, nmbrButton) else afterRight
  }
}
