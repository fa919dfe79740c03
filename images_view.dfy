/**
 * The image list model of `Pager/ListOfImages/ImagesView.swift`: a
 * `ListState` of Picsum image records and the page links of the last
 * response. A fetch is an outcome handed in; each method returns the request
 * it issued, if any.
 */
module ImagesList {
  import opened Outcomes
  import opened ListStates
  import opened Picsum
  import Urls

  class ImagesModel {
    var state: ListState<Metadata>
    var pageInfo: seq<Pagination>

    constructor ()
      ensures state == Initial && pageInfo == []
    {
      state := Initial;
      pageInfo := [];
    }

    /**
     * `load()`: a no-op while loading; otherwise `.loading` with the same
     * items, then a request for the fixed first page, whatever `pageInfo`
     * holds. A response replaces `pageInfo` and appends its list; an error
     * keeps the items beside it and leaves `pageInfo` as it was.
     */
    method Load(outcome: Result<Response>) returns (requested: Option<Urls.Url>)
      modifies this
      ensures old(state).IsLoading() ==> requested == None && state == old(state) && pageInfo == old(pageInfo)
      ensures !old(state).IsLoading() ==> requested == Some(FirstPageURL(DefaultPage, DefaultLimit))
      ensures !old(state).IsLoading() && outcome.Ok? ==>
        state == Loaded(old(state).Items() + outcome.value.list) && pageInfo == outcome.value.pageInfo
      ensures !old(state).IsLoading() && outcome.Err? ==>
        state == Error(old(state).Items(), outcome.error) && pageInfo == old(pageInfo)
    {
      if state.IsLoading() {
        return None;
      }
      state := Loading(state.Items());
      requested := Some(FirstPageURL(DefaultPage, DefaultLimit));
      match outcome
      case Ok(response) =>
        pageInfo := response.pageInfo;
        var all := state.Items() + response.list;
        state := Loaded(all);
      case Err(e) =>
        state := Error(state.Items(), e);
    }

    /**
     * `reportAppearance(_:)`: acts only for the current last item and only when
     * not loading. It then requests the `next` link of `pageInfo`; without one
     * it fails with `badURL` and requests nothing. A response replaces
     * `pageInfo` and appends its list; an error keeps the items and `pageInfo`.
     */
    method ReportAppearance(item: Metadata, outcome: Result<Response>) returns (requested: Option<string>)
      modifies this
      ensures !IsLastItem(old(state).Items(), item) || old(state).IsLoading() ==>
        requested == None && state == old(state) && pageInfo == old(pageInfo)
      ensures IsLastItem(old(state).Items(), item) && !old(state).IsLoading() ==>
        match PageURL(old(pageInfo), Next)
        case Err(e) =>
          requested == None && state == Error(old(state).Items(), BadURL) && pageInfo == old(pageInfo)
        case Ok(url) =>
          && requested == Some(url)
          && (outcome.Ok? ==>
                state == Loaded(old(state).Items() + outcome.value.list) && pageInfo == outcome.value.pageInfo)
          && (outcome.Err? ==> state == Error(old(state).Items(), outcome.error) && pageInfo == old(pageInfo))
    {
      if !IsLastItem(state.Items(), item) {
        return None;
      }
      if state.IsLoading() {
        return None;
      }
      state := Loading(state.Items());
      requested := None;
      match PageURL(pageInfo, Next)
      case Err(e) =>
        state := Error(state.Items(), e);
      case Ok(url) =>
        requested := Some(url);
        match outcome
        case Ok(response) =>
          pageInfo := response.pageInfo;
          var all := state.Items() + response.list;
          state := Loaded(all);
        case Err(e) =>
          state := Error(state.Items(), e);
    }
  }
}
