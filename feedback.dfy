/** The messages the page shows the user: one `st.success`, `st.error` or
    `st.warning` call each. */
module Feedback {
  datatype Notice = Success(text: string) | Error(text: string) | Warning(text: string)
}
