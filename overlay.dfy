/** The button table of ponyban/Overlay.cpp: buttons filed under a reference
    name, created only under a free name and only when the button's image
    loads, and destroyed by name. */
module Overlays {

  /** A button, known by its identity and the image file it was made from. */
  class GUIButton {
    const fileName: string

    constructor(fileName: string)
      ensures this.fileName == fileName
    {
      this.fileName := fileName;
    }
  }

  /** sf::Rect<unsigned int>: left, top, width and height. */
  datatype UIntRect = UIntRect(left: nat, top: nat, width: nat, height: nat)

  /** Creating a button under a free name and destroying it again gives back
      the table it started from. */
  lemma CreateThenDestroy(m: map<string, GUIButton>, reference: string, b: GUIButton)
    requires reference !in m
    ensures m[reference := b] - {reference} == m
  {
  }

  /** Destroying a button leaves no button under its name and every other
      button where it was. */
  lemma DestroyOnlyThat(m: map<string, GUIButton>, reference: string)
    ensures reference !in m - {reference}
    ensures forall k :: k in m && k != reference ==> k in m - {reference} && (m - {reference})[k] == m[k]
    ensures forall k :: k in m - {reference} ==> k in m
  {
  }

  class Overlay {
    var buttonMap: map<string, GUIButton>
    var boundaries: UIntRect
    var referenceResolution: (nat, nat)

    /** The constructor (ponyban/Overlay.cpp:25-30). The four corners are
        handed to sf::Rect, whose last two fields are a width and a height. */
    constructor(left: nat, top: nat, right: nat, bottom: nat)
      ensures buttonMap == map[]
      ensures referenceResolution == (1, 1)
      ensures boundaries == UIntRect(left, top, right, bottom)
    {
      buttonMap := map[];
      boundaries := UIntRect(left, top, right, bottom);
      referenceResolution := (1, 1);
    }

    /** createButton (ponyban/Overlay.cpp:40-56). Whether the button's image
        loads comes from outside. */
    method CreateButton(reference: string, fileName: string, loads: bool) returns (ok: bool)
      modifies this
      ensures boundaries == old(boundaries) && referenceResolution == old(referenceResolution)
      ensures ok <==> reference !in old(buttonMap) && loads
      ensures !ok ==> buttonMap == old(buttonMap)
      ensures ok ==>
        && reference in buttonMap && fresh(buttonMap[reference])
        && buttonMap[reference].fileName == fileName
        && buttonMap == old(buttonMap)[reference := buttonMap[reference]]
    {
      if reference in buttonMap {
        return false;
      }
      var newButton := new GUIButton(fileName);
      if !loads {
        return false;
      }
      buttonMap := buttonMap[reference := newButton];
      return true;
    }

    /** destroyButton (ponyban/Overlay.cpp:59-66): an unknown name changes
        nothing. */
    method DestroyButton(reference: string)
      modifies this
      ensures boundaries == old(boundaries) && referenceResolution == old(referenceResolution)
      ensures reference !in old(buttonMap) ==> buttonMap == old(buttonMap)
      ensures reference in old(buttonMap) ==> buttonMap == old(buttonMap) - {reference}
    {
      if reference !in buttonMap {
        return;
      }
      buttonMap := buttonMap - {reference};
    }
  }
}
