/**
 * An item of the advert slider: it wraps an advert and a flag saying
 * whether the slider shows the advert's title. An item starts out with no
 * advert and the title hidden; reading the advert's fields before one is
 * set dereferences null.
 */
module AdvertSliderItem {
  import opened JavaLang

  /** The advert bean: its id, title, image address and link. */
  datatype Advert = Advert(id: int, title: string, imageUrl: string, link: string)

  class AdvertSliderItem {
    var displayTitleFlag: bool
    /** The wrapped advert; None stands for a null reference. */
    var ad: Option<Advert>

    /** A fresh item hides its title, and so displays the empty string. */
    constructor ()
      ensures !displayTitleFlag && ad == None
      ensures DisplayedTitle() == Value("")
    {
      displayTitleFlag := false;
      ad := None;
    }

    /**
     * The title the slider shows: empty while the flag is off whatever the
     * advert, the advert's own title while it is on, and a null dereference
     * when it is on with no advert.
     */
    function DisplayedTitle(): (r: Outcome<string>)
      reads this
      ensures !displayTitleFlag ==> r == Value("")
      ensures displayTitleFlag ==> r == AdvertTitle()
      ensures r.Thrown? <==> displayTitleFlag && ad == None
    {
      if displayTitleFlag then AdvertTitle() else Value("")
    }

    method SetDisplayTitleFlag(flag: bool)
      modifies this`displayTitleFlag
      ensures displayTitleFlag == flag
      ensures flag ==> DisplayedTitle() == AdvertTitle()
      ensures !flag ==> DisplayedTitle() == Value("")
    {
      displayTitleFlag := flag;
    }

    method SetAdvert(advert: Option<Advert>)
      modifies this`ad
      ensures ad == advert
      ensures advert.Some? ==>
        && AdvertId() == Value(advert.value.id)
        && AdvertTitle() == Value(advert.value.title)
        && AdvertLink() == Value(advert.value.link)
    {
      ad := advert;
    }

    function AdvertId(): (r: Outcome<int>)
      reads this
      ensures ad.Some? ==> r == Value(ad.value.id)
      ensures ad.None? ==> r == Thrown(NullPointer)
    {
      if ad.Some? then Value(ad.value.id) else Thrown(NullPointer)
    }

    function AdvertTitle(): (r: Outcome<string>)
      reads this
      ensures ad.Some? ==> r == Value(ad.value.title)
      ensures ad.None? ==> r == Thrown(NullPointer)
    {
      if ad.Some? then Value(ad.value.title) else Thrown(NullPointer)
    }

    function AdvertLink(): (r: Outcome<string>)
      reads this
      ensures ad.Some? ==> r == Value(ad.value.link)
      ensures ad.None? ==> r == Thrown(NullPointer)
    {
      if ad.Some? then Value(ad.value.link) else Thrown(NullPointer)
    }
  }
}
