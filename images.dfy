/** `Images` of src/model/images.rs: the image records in load order with
    the selected and the previously selected index. `Images::export` writes
    a spreadsheet and is not modelled. */
module ImagesModel {
  import opened Wrappers
  import opened ImageDataModel

  /** `Images`: the records in load order, the selected index and the index
      selected before it. */
  class Images {
    var images: seq<ImageData>
    var selected: Option<nat>
    var prevSelected: Option<nat>

    /** Both indices name records, a previous selection exists only once
        something is selected, and every record holds its decoded image. */
    ghost predicate Valid()
      reads this
    {
      && (selected.Some? ==> selected.value < |images|)
      && (prevSelected.Some? ==> prevSelected.value < |images| && selected.Some?)
      && (forall k :: 0 <= k < |images| ==> images[k].image.Some? && images[k].image.value.Valid())
    }

    /** `Images::default()`. */
    constructor ()
      ensures Valid()
      ensures images == [] && selected.None? && prevSelected.None?
    {
      images := [];
      selected := None;
      prevSelected := None;
    }
  }
}
