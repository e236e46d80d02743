/**
  Showing and hiding page controls by their CSS classes. Each control's
  class list is a set of class names; showing removes `hide` and adds
  `show`, hiding does the opposite, and no other class is touched.
*/
module Controls {

  const Show := "show"
  const Hide := "hide"

  /** A page element whose class list the application updates in place. */
  class Control {
    var classes: set<string>

    constructor (classes: set<string>)
      ensures this.classes == classes
    {
      this.classes := classes;
    }
  }

  /** The class set of a control after it is shown. */
  function Shown(classes: set<string>): (r: set<string>)
    ensures Show in r && Hide !in r
    ensures forall c :: c != Show && c != Hide ==> (c in r <==> c in classes)
  {
    classes - {Hide} + {Show}
  }

  /** The class set of a control after it is hidden. */
  function Hidden(classes: set<string>): (r: set<string>)
    ensures Hide in r && Show !in r
    ensures forall c :: c != Show && c != Hide ==> (c in r <==> c in classes)
  {
    classes - {Show} + {Hide}
  }

  /** Shows every given control: if `hide` is present it is removed, if
      `show` is absent it is added. A control passed twice ends up as if
      passed once. */
  method ShowControls(controls: seq<Control>)
    modifies set c | c in controls
    ensures forall c :: c in controls ==> c.classes == Shown(old(c.classes))
  {
    var i := 0;
    while i < |controls|
      invariant 0 <= i <= |controls|
      invariant forall c :: c in controls[..i] ==> c.classes == Shown(old(c.classes))
      invariant forall c :: c in controls[i..] && c !in controls[..i] ==> c.classes == old(c.classes)
    {
      var control := controls[i];
      ShownIdempotent(old(control.classes));
      if Hide in control.classes {
        control.classes := control.classes - {Hide};
      }
      if Show !in control.classes {
        control.classes := control.classes + {Show};
      }
      assert controls[..i + 1] == controls[..i] + [control];
      i := i + 1;
    }
    assert controls[..i] == controls;
  }

  /** Hides every given control: the mirror image of ShowControls. */
  method HideControls(controls: seq<Control>)
    modifies set c | c in controls
    ensures forall c :: c in controls ==> c.classes == Hidden(old(c.classes))
  {
    var i := 0;
    while i < |controls|
      invariant 0 <= i <= |controls|
      invariant forall c :: c in controls[..i] ==> c.classes == Hidden(old(c.classes))
      invariant forall c :: c in controls[i..] && c !in controls[..i] ==> c.classes == old(c.classes)
    {
      var control := controls[i];
      HiddenIdempotent(old(control.classes));
      if Show in control.classes {
        control.classes := control.classes - {Show};
      }
      if Hide !in control.classes {
        control.classes := control.classes + {Hide};
      }
      assert controls[..i + 1] == controls[..i] + [control];
      i := i + 1;
    }
    assert controls[..i] == controls;
  }

  lemma ShownIdempotent(classes: set<string>)
    ensures Shown(Shown(classes)) == Shown(classes)
  {
  }

  lemma HiddenIdempotent(classes: set<string>)
    ensures Hidden(Hidden(classes)) == Hidden(classes)
  {
  }

  /** Showing a control that is already shown changes nothing. */
  lemma ShownFixed(classes: set<string>)
    ensures Shown(classes) == classes <==> Show in classes && Hide !in classes
  {
  }

  /** Showing and hiding undo each other on a control's other classes:
      hiding after showing is hiding, and showing after hiding is showing. */
  lemma ShowHideCancel(classes: set<string>)
    ensures Hidden(Shown(classes)) == Hidden(classes)
    ensures Shown(Hidden(classes)) == Shown(classes)
  {
  }
}
