/** Which of the three views the App component renders, chosen from
    `currentPost` and `isEditing` by three independent guards. */
module Views {
  import opened Posts

  datatype Screen = Form | List | Detail

  /** The views rendered in a state. The form's guard tests `currentPost`
      for `null` strictly, while the list and detail guards test it for
      truthiness, so `null` and `undefined` select different views. */
  function Screens(current: Selection, editing: bool): (r: set<Screen>)
    ensures r != {}
    ensures Detail in r ==> r == {Detail}
    ensures editing ==> r == {Form}
    ensures !editing && current == Null ==> r == {Form, List}
    ensures !editing && current == Undefined ==> r == {List}
    ensures !editing && current.Selected? ==> r == {Detail}
  {
    (if editing || current == Null then {Form} else {})
    + (if !current.Selected? && !editing then {List} else {})
    + (if current.Selected? && !editing then {Detail} else {})
  }
}
