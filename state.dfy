/** The shared record every node of a workflow reads and updates (`BlogState`). */
module State {
  import opened Results

  /** The fields of `BlogState`. */
  datatype StateKey = YoutubeUrl | YoutubeTranscript | BlogTitle | BlogContent | FinalBlog | VideoNotes | VideoSummary
  {
    /** The field's name in the Python record. */
    function Name(): string {
      match this
      case YoutubeUrl => "youtube_url"
      case YoutubeTranscript => "youtube_transcript"
      case BlogTitle => "blog_title"
      case BlogContent => "blog_content"
      case FinalBlog => "final_blog"
      case VideoNotes => "video_notes"
      case VideoSummary => "video_summary"
    }
  }

  /** The running state, or the partial update a node returns: a field is present
      once something has written it. */
  type BlogState = map<StateKey, string>

  /** `state.get(key)` read as a condition: present and non-empty. */
  predicate Has(state: BlogState, key: StateKey) {
    key in state && state[key] != []
  }
}
